// The writer of modules.data: ModulesDataBuilder and the edge insertion of analyze_module_graphs
// in analyze.rs. Dependents are kept as the inverse of dependencies.
module ModulesData {
  import opened Wrappers
  import opened Sequences
  import opened EdgesFormat

  // A module of the graph; two modules may share an ident.
  datatype Module = Module(id: nat, ident: string, path: string)

  datatype GraphEdge = GraphEdge(from: Module, to: Module, isAsync: bool)

  // FxIndexSet: inserting a member that is present changes nothing.
  function Insert<T(==)>(members: seq<T>, x: T): seq<T> {
    if x in members then members else members + [x]
  }

  lemma InsertMembers<T(!new)>(members: seq<T>, x: T)
    ensures forall y :: y in Insert(members, x) <==> y in members || y == x
    ensures members <= Insert(members, x) && |Insert(members, x)| <= |members| + 1
    ensures Distinct(members) ==> Distinct(Insert(members, x))
  {
  }

  // ---------- Tables ----------

  // What modules.data holds; the idents and paths of the modules, and two pairs of edge tables.
  datatype Tables = Tables(idents: seq<string>, paths: seq<string>,
                           dependencies: seq<seq<nat>>, asyncDependencies: seq<seq<nat>>,
                           dependents: seq<seq<nat>>, asyncDependents: seq<seq<nat>>) {
    function Forth(isAsync: bool): seq<seq<nat>> {
      if isAsync then asyncDependencies else dependencies
    }

    function Back(isAsync: bool): seq<seq<nat>> {
      if isAsync then asyncDependents else dependents
    }
  }

  predicate Edge(table: seq<seq<nat>>, i: nat, j: nat) {
    i < |table| && j in table[i]
  }

  // `back` is the inverse of `forth`, and both hold proper edges between `n` modules, each once.
  ghost predicate Inverse(forth: seq<seq<nat>>, back: seq<seq<nat>>, n: nat) {
    && |forth| == |back| == n
    && (forall i: nat, j: nat :: Edge(forth, i, j) <==> Edge(back, j, i))
    && (forall i: nat, j: nat :: Edge(forth, i, j) ==> i < n && j < n && i != j)
    && (forall i :: 0 <= i < n ==> Distinct(forth[i]) && Distinct(back[i]))
  }

  ghost predicate ValidTables(t: Tables) {
    && |t.idents| == |t.paths|
    && Distinct(t.idents)
    && forall isAsync :: Inverse(t.Forth(isAsync), t.Back(isAsync), |t.idents|)
  }

  // ---------- What the graph asks for ----------

  // The distinct modules of the edges, in order of first occurrence.
  function AllModules(edges: seq<GraphEdge>): seq<Module> {
    if edges == [] then []
    else
      var last := edges[|edges| - 1];
      Insert(Insert(AllModules(edges[..|edges| - 1]), last.from), last.to)
  }

  // The distinct edges of one kind, in order of first occurrence.
  function AllEdges(edges: seq<GraphEdge>, isAsync: bool): seq<(Module, Module)> {
    if edges == [] then []
    else
      var last := edges[|edges| - 1];
      var before := AllEdges(edges[..|edges| - 1], isAsync);
      if last.isAsync == isAsync then Insert(before, (last.from, last.to)) else before
  }

  lemma {:induction false} ModuleListed(edges: seq<GraphEdge>, m: Module)
    ensures m in AllModules(edges) <==> exists e :: e in edges && (e.from == m || e.to == m)
  {
    if edges != [] {
      var init, last := edges[..|edges| - 1], edges[|edges| - 1];
      assert edges == init + [last];
      ModuleListed(init, m);
      assert last in edges;
    }
  }

  lemma {:induction false} EdgeListed(edges: seq<GraphEdge>, isAsync: bool, p: (Module, Module))
    ensures p in AllEdges(edges, isAsync) <==> exists e :: e in edges && e.isAsync == isAsync && p == (e.from, e.to)
  {
    if edges != [] {
      var init, last := edges[..|edges| - 1], edges[|edges| - 1];
      assert edges == init + [last];
      EdgeListed(init, isAsync, p);
      assert last in edges;
    }
  }

  method CollectGraph(edges: seq<GraphEdge>)
    returns (modules: seq<Module>, syncEdges: seq<(Module, Module)>, asyncEdges: seq<(Module, Module)>)
    ensures modules == AllModules(edges)
    ensures syncEdges == AllEdges(edges, false) && asyncEdges == AllEdges(edges, true)
  {
    modules, syncEdges, asyncEdges := [], [], [];
    for k := 0 to |edges|
      invariant modules == AllModules(edges[..k])
      invariant syncEdges == AllEdges(edges[..k], false) && asyncEdges == AllEdges(edges[..k], true)
    {
      assert edges[..k + 1][..k] == edges[..k];
      var e := edges[k];
      modules := Insert(Insert(modules, e.from), e.to);
      if e.isAsync {
        asyncEdges := Insert(asyncEdges, (e.from, e.to));
      } else {
        syncEdges := Insert(syncEdges, (e.from, e.to));
      }
    }
    assert edges[..|edges|] == edges;
  }

  // ---------- Edge insertion, on values ----------

  ghost predicate Asked(idents: seq<string>, pairs: seq<(Module, Module)>, i: nat, j: nat)
    requires i < |idents| && j < |idents|
  {
    i != j && exists p :: p in pairs && p.0.ident == idents[i] && p.1.ident == idents[j]
  }

  // Exactly the pairs of different idents in `pairs` are edges of `forth`.
  ghost predicate EdgesExact(idents: seq<string>, forth: seq<seq<nat>>, pairs: seq<(Module, Module)>) {
    && |forth| == |idents|
    && forall i: nat, j: nat :: i < |idents| && j < |idents| ==> (Edge(forth, i, j) <==> Asked(idents, pairs, i, j))
  }

  lemma InsertedEdge(table: seq<seq<nat>>, from: nat, to: nat, table': seq<seq<nat>>)
    requires from < |table| && table' == table[from := Insert<nat>(table[from], to)]
    ensures forall i: nat, j: nat :: Edge(table', i, j) <==> Edge(table, i, j) || (i == from && j == to)
    ensures (forall i :: 0 <= i < |table| ==> Distinct(table[i]))
            ==> forall i :: 0 <= i < |table| ==> Distinct(table'[i])
  {
  }

  lemma AddEdgeKeepsInverse(forth: seq<seq<nat>>, back: seq<seq<nat>>, n: nat, from: nat, to: nat)
    requires Inverse(forth, back, n) && from < n && to < n && from != to
    ensures Inverse(forth[from := Insert<nat>(forth[from], to)], back[to := Insert<nat>(back[to], from)], n)
  {
    InsertedEdge(forth, from, to, forth[from := Insert<nat>(forth[from], to)]);
    InsertedEdge(back, to, from, back[to := Insert<nat>(back[to], from)]);
  }

  // While there are no edges, a module can be added.
  lemma AddModuleKeepsInverse(forth: seq<seq<nat>>, back: seq<seq<nat>>, n: nat)
    requires Inverse(forth, back, n)
    ensures Inverse(forth + [[]], back + [[]], n + 1)
  {
    assert forall i: nat, j: nat :: Edge(forth + [[]], i, j) <==> Edge(forth, i, j);
    assert forall i: nat, j: nat :: Edge(back + [[]], i, j) <==> Edge(back, i, j);
  }

  lemma AddEdgeKeepsExact(idents: seq<string>, forth: seq<seq<nat>>, pairs: seq<(Module, Module)>, p: (Module, Module),
                          from: nat, to: nat)
    requires EdgesExact(idents, forth, pairs) && Distinct(idents)
    requires from < |idents| && to < |idents| && idents[from] == p.0.ident && idents[to] == p.1.ident
    ensures EdgesExact(idents, if from == to then forth else forth[from := Insert<nat>(forth[from], to)], pairs + [p])
  {
    InsertedEdge(forth, from, to, forth[from := Insert<nat>(forth[from], to)]);
    forall i: nat, j: nat | i < |idents| && j < |idents|
      ensures Asked(idents, pairs + [p], i, j) <==> Asked(idents, pairs, i, j) || (i != j && i == from && j == to)
    {
      if Asked(idents, pairs, i, j) {
        var q :| q in pairs && q.0.ident == idents[i] && q.1.ident == idents[j];
        assert q in pairs + [p];
      }
      assert p in pairs + [p];
    }
  }

  lemma SkipKeepsExact(idents: seq<string>, forth: seq<seq<nat>>, pairs: seq<(Module, Module)>, p: (Module, Module))
    requires EdgesExact(idents, forth, pairs) && Distinct(idents) && p.0 == p.1
    ensures EdgesExact(idents, forth, pairs + [p])
  {
  }

  // ---------- The builder, on values ----------

  ghost predicate Empty(table: seq<seq<nat>>) {
    forall i :: 0 <= i < |table| ==> table[i] == []
  }

  datatype ModuleBuilder = ModuleBuilder(ident: string, path: string,
                                         dependencies: seq<nat>, asyncDependencies: seq<nat>,
                                         dependents: seq<nat>, asyncDependents: seq<nat>) {
    function Forth(isAsync: bool): seq<nat> {
      if isAsync then asyncDependencies else dependencies
    }

    function Back(isAsync: bool): seq<nat> {
      if isAsync then asyncDependents else dependents
    }

    function WithDependency(isAsync: bool, to: nat): ModuleBuilder {
      if isAsync then this.(asyncDependencies := Insert<nat>(asyncDependencies, to))
      else this.(dependencies := Insert<nat>(dependencies, to))
    }

    function WithDependent(isAsync: bool, from: nat): ModuleBuilder {
      if isAsync then this.(asyncDependents := Insert<nat>(asyncDependents, from))
      else this.(dependents := Insert<nat>(dependents, from))
    }
  }

  function Idents(modules: seq<ModuleBuilder>): seq<string> {
    seq(|modules|, i requires 0 <= i < |modules| => modules[i].ident)
  }

  function Paths(modules: seq<ModuleBuilder>): seq<string> {
    seq(|modules|, i requires 0 <= i < |modules| => modules[i].path)
  }

  function ForthOf(modules: seq<ModuleBuilder>, isAsync: bool): seq<seq<nat>> {
    seq(|modules|, i requires 0 <= i < |modules| => modules[i].Forth(isAsync))
  }

  function BackOf(modules: seq<ModuleBuilder>, isAsync: bool): seq<seq<nat>> {
    seq(|modules|, i requires 0 <= i < |modules| => modules[i].Back(isAsync))
  }

  function TablesOf(modules: seq<ModuleBuilder>): Tables {
    Tables(Idents(modules), Paths(modules), ForthOf(modules, false), ForthOf(modules, true), BackOf(modules, false),
           BackOf(modules, true))
  }

  function WithEdge(modules: seq<ModuleBuilder>, isAsync: bool, from: nat, to: nat): seq<ModuleBuilder>
    requires from < |modules| && to < |modules|
  {
    var modules' := modules[from := modules[from].WithDependency(isAsync, to)];
    modules'[to := modules'[to].WithDependent(isAsync, from)]
  }

  function NewModule(ident: string, path: string): ModuleBuilder {
    ModuleBuilder(ident, path, [], [], [], [])
  }

  lemma NewModuleTables(modules: seq<ModuleBuilder>, ident: string, path: string)
    ensures var m := modules + [NewModule(ident, path)];
            && Idents(m) == Idents(modules) + [ident]
            && forall isAsync :: ForthOf(m, isAsync) == ForthOf(modules, isAsync) + [[]]
                && BackOf(m, isAsync) == BackOf(modules, isAsync) + [[]]
  {
  }

  // An inserted edge changes one row of each table of its kind.
  lemma WithEdgeTables(modules: seq<ModuleBuilder>, isAsync: bool, from: nat, to: nat)
    requires from < |modules| && to < |modules| && from != to
    ensures var m := WithEdge(modules, isAsync, from, to);
            && Idents(m) == Idents(modules) && Paths(m) == Paths(modules)
            && ForthOf(m, isAsync) == ForthOf(modules, isAsync)[from := Insert<nat>(modules[from].Forth(isAsync), to)]
            && BackOf(m, isAsync) == BackOf(modules, isAsync)[to := Insert<nat>(modules[to].Back(isAsync), from)]
            && ForthOf(m, !isAsync) == ForthOf(modules, !isAsync) && BackOf(m, !isAsync) == BackOf(modules, !isAsync)
  {
  }

  // ---------- The file ----------

  function Size(table: seq<seq<nat>>): nat {
    |Encode(EdgesOf(table))|
  }

  ghost predicate ModulesFit(t: Tables) {
    && Size(t.dependents) < U32_LIMIT && Size(t.asyncDependents) < U32_LIMIT
    && Size(t.dependencies) < U32_LIMIT && Size(t.asyncDependencies) < U32_LIMIT
    && Size(t.dependents) + Size(t.asyncDependents) + Size(t.dependencies) < U32_LIMIT
  }

  // Tables written later do not disturb the first three.
  lemma FirstTables(t: Tables, s1: seq<Byte>, s2: seq<Byte>, s3: seq<Byte>, s4: seq<Byte>,
                    r1: EdgesDataReference, r2: EdgesDataReference, r3: EdgesDataReference)
    requires s2 == s1 + Encode(EdgesOf(t.asyncDependents))
    requires s3 == s2 + Encode(EdgesOf(t.dependencies))
    requires s4 == s3 + Encode(EdgesOf(t.asyncDependencies))
    requires Holds(s1, r1, t.dependents) && Holds(s2, r2, t.asyncDependents) && Holds(s3, r3, t.dependencies)
    ensures Holds(s4, r1, t.dependents) && Holds(s4, r2, t.asyncDependents) && Holds(s4, r3, t.dependencies)
  {
    HoldsAfter(s1, r1, t.dependents, Encode(EdgesOf(t.asyncDependents)));
    HoldsAfter(s2, r1, t.dependents, Encode(EdgesOf(t.dependencies)));
    HoldsAfter(s3, r1, t.dependents, Encode(EdgesOf(t.asyncDependencies)));
    HoldsAfter(s2, r2, t.asyncDependents, Encode(EdgesOf(t.dependencies)));
    HoldsAfter(s3, r2, t.asyncDependents, Encode(EdgesOf(t.asyncDependencies)));
    HoldsAfter(s3, r3, t.dependencies, Encode(EdgesOf(t.asyncDependencies)));
  }

  // The four tables, written one after another into one section; no references after a panic.
  method WriteTables(dependents: EdgesData, asyncDependents: EdgesData, dependencies: EdgesData,
                     asyncDependencies: EdgesData, ghost t: Tables)
    returns (section: seq<Byte>, refs: seq<EdgesDataReference>)
    requires dependents == EdgesOf(t.dependents) && asyncDependents == EdgesOf(t.asyncDependents)
    requires dependencies == EdgesOf(t.dependencies) && asyncDependencies == EdgesOf(t.asyncDependencies)
    ensures refs == [] <==> !ModulesFit(t)
    ensures refs != [] ==>
              && |refs| == 4
              && Holds(section, refs[0], t.dependents) && refs[0].length < U32_LIMIT
              && Holds(section, refs[1], t.asyncDependents) && refs[1].length < U32_LIMIT
              && Holds(section, refs[2], t.dependencies) && refs[2].length < U32_LIMIT
              && Holds(section, refs[3], t.asyncDependencies) && refs[3].length < U32_LIMIT
  {
    var builder := new EdgesDataSectionBuilder();
    section, refs := [], [];
    assert [] + Encode(dependents) == Encode(dependents);
    var r1 := builder.AddEdges(dependents);
    if r1.None? { return; }
    HoldsAtEnd([], t.dependents);
    ghost var s1 := builder.data;
    assert |s1| == Size(t.dependents);
    var r2 := builder.AddEdges(asyncDependents);
    if r2.None? { return; }
    HoldsAtEnd(s1, t.asyncDependents);
    ghost var s2 := builder.data;
    assert |s2| == |s1| + Size(t.asyncDependents);
    var r3 := builder.AddEdges(dependencies);
    if r3.None? { return; }
    HoldsAtEnd(s2, t.dependencies);
    ghost var s3 := builder.data;
    assert |s3| == |s2| + Size(t.dependencies);
    var r4 := builder.AddEdges(asyncDependencies);
    if r4.None? { return; }
    HoldsAtEnd(s3, t.asyncDependencies);
    FirstTables(t, s1, s2, s3, builder.data, r1.value, r2.value, r3.value);
    section, refs := builder.data, [r1.value, r2.value, r3.value, r4.value];
  }

  datatype ModulesFile = ModulesFile(idents: seq<string>, paths: seq<string>,
                                     moduleDependents: EdgesDataReference, asyncModuleDependents: EdgesDataReference,
                                     moduleDependencies: EdgesDataReference,
                                     asyncModuleDependencies: EdgesDataReference,
                                     binary: seq<Byte>)

  ghost predicate ShowsModules(file: ModulesFile, t: Tables) {
    && file.idents == t.idents && file.paths == t.paths
    && Reads(file.binary, file.moduleDependents, t.dependents)
    && Reads(file.binary, file.asyncModuleDependents, t.asyncDependents)
    && Reads(file.binary, file.moduleDependencies, t.dependencies)
    && Reads(file.binary, file.asyncModuleDependencies, t.asyncDependencies)
  }

  lemma EdgeTableReads(binary: seq<Byte>, ref: EdgesDataReference, table: seq<seq<nat>>, other: seq<seq<nat>>,
                       back: bool)
    requires if back then Inverse(other, table, |table|) else Inverse(table, other, |table|)
    requires Holds(binary, ref, table) && ref.length < U32_LIMIT
    ensures Reads(binary, ref, table)
  {
    forall i, k | 0 <= i < |table| && 0 <= k < |table[i]|
      ensures table[i][k] < |table|
    {
      assert if back then Edge(other, table[i][k], i) else Edge(table, i, table[i][k]) by {
        assert Edge(table, i, table[i][k]);
      }
    }
    IndexTableReads(binary, ref, table);
  }

  // ---------- The builder as an object ----------

  // The idents of the modules that occur in the edges.
  ghost predicate IdentsExact(idents: seq<string>, modules: seq<Module>) {
    forall s :: s in idents <==> exists m :: m in modules && m.ident == s
  }

  ghost predicate FirstWith(modules: seq<Module>, ident: string, k: nat) {
    k < |modules| && modules[k].ident == ident && forall j :: 0 <= j < k ==> modules[j].ident != ident
  }

  ghost predicate PathOf(modules: seq<Module>, ident: string, path: string) {
    exists k: nat :: FirstWith(modules, ident, k) && modules[k].path == path
  }

  // Every ident has the path of the first module of that ident.
  ghost predicate PathsExact(idents: seq<string>, paths: seq<string>, modules: seq<Module>) {
    |idents| == |paths| && forall i :: 0 <= i < |idents| ==> PathOf(modules, idents[i], paths[i])
  }

  lemma PathsKept(idents: seq<string>, paths: seq<string>, modules: seq<Module>, m: Module)
    requires IdentsExact(idents, modules) && PathsExact(idents, paths, modules)
    ensures PathsExact(idents, paths, modules + [m])
    ensures m.ident !in idents ==> PathOf(modules + [m], m.ident, m.path)
  {
    forall i | 0 <= i < |idents|
      ensures PathOf(modules + [m], idents[i], paths[i])
    {
      var k: nat :| FirstWith(modules, idents[i], k) && modules[k].path == paths[i];
      assert FirstWith(modules + [m], idents[i], k);
    }
    if m.ident !in idents {
      assert FirstWith(modules + [m], m.ident, |modules|);
    }
  }

  class ModulesDataBuilder {
    var modules: seq<ModuleBuilder>
    var moduleIndexMap: map<string, nat>

    ghost predicate Valid()
      reads this
    {
      && Indexes(moduleIndexMap, Idents(modules))
      && forall isAsync :: Inverse(ForthOf(modules, isAsync), BackOf(modules, isAsync), |modules|)
    }

    constructor ()
      ensures Valid() && modules == []
    {
      modules, moduleIndexMap := [], map[];
    }

    // None is the panic of a module that is not there.
    method GetModule(ident: string) returns (index: Option<nat>)
      requires Valid()
      ensures index.Some? <==> ident in Idents(modules)
      ensures index.Some? ==> index.value < |modules| && modules[index.value].ident == ident
    {
      if ident in moduleIndexMap {
        assert Idents(modules)[moduleIndexMap[ident]] == ident;
        return Some(moduleIndexMap[ident]);
      }
      assert forall i :: 0 <= i < |modules| ==> Idents(modules)[i] in moduleIndexMap;
      return None;
    }

    method EnsureModule(ident: string, path: string)
      requires Valid()
      requires forall isAsync :: Empty(ForthOf(modules, isAsync))
      modifies this
      ensures Valid()
      ensures forall isAsync :: Empty(ForthOf(modules, isAsync))
      ensures Idents(modules) == Insert(old(Idents(modules)), ident)
      ensures Paths(modules)
              == if ident in old(Idents(modules)) then old(Paths(modules)) else old(Paths(modules)) + [path]
    {
      if ident in moduleIndexMap {
        assert Idents(modules)[moduleIndexMap[ident]] == ident;
        return;
      }
      assert forall i :: 0 <= i < |modules| ==> Idents(modules)[i] in moduleIndexMap;
      var index := |modules|;
      forall isAsync
        ensures Inverse(ForthOf(modules, isAsync) + [[]], BackOf(modules, isAsync) + [[]], index + 1)
      {
        AddModuleKeepsInverse(ForthOf(modules, isAsync), BackOf(modules, isAsync), index);
      }
      NewModuleTables(modules, ident, path);
      moduleIndexMap := moduleIndexMap[ident := index];
      modules := modules + [NewModule(ident, path)];
    }

    // Exactly the given modules are registered, and no edges yet.
    ghost predicate Registers(all: seq<Module>)
      reads this
    {
      && Valid() && (forall isAsync :: Empty(ForthOf(modules, isAsync)))
      && IdentsExact(Idents(modules), all) && PathsExact(Idents(modules), Paths(modules), all)
    }

    method RegisterModule(m: Module, ghost before: seq<Module>)
      requires Registers(before)
      modifies this
      ensures Registers(before + [m])
    {
      InsertMembers(Idents(modules), m.ident);
      PathsKept(Idents(modules), Paths(modules), before, m);
      EnsureModule(m.ident, m.path);
    }

    method EnsureModules(all: seq<Module>)
      requires Valid() && modules == []
      modifies this
      ensures Valid()
      ensures forall isAsync :: Empty(ForthOf(modules, isAsync))
      ensures IdentsExact(Idents(modules), all) && PathsExact(Idents(modules), Paths(modules), all)
    {
      for k := 0 to |all|
        invariant Registers(all[..k])
      {
        assert all[..k + 1] == all[..k] + [all[k]];
        RegisterModule(all[k], all[..k]);
      }
      assert all[..|all|] == all;
    }

    // The edge loop of one kind; the two loops of the source differ in nothing else.
    method InsertEdges(pairs: seq<(Module, Module)>, isAsync: bool) returns (panicked: bool)
      requires Valid()
      requires Empty(ForthOf(modules, isAsync))
      requires forall p :: p in pairs ==> p.0.ident in Idents(modules) && p.1.ident in Idents(modules)
      modifies this`modules
      ensures !panicked && Valid()
      ensures Idents(modules) == old(Idents(modules)) && Paths(modules) == old(Paths(modules))
      ensures EdgesExact(Idents(modules), ForthOf(modules, isAsync), pairs)
      ensures ForthOf(modules, !isAsync) == old(ForthOf(modules, !isAsync))
    {
      panicked := false;
      for k := 0 to |pairs|
        invariant Valid() && !panicked
        invariant Idents(modules) == old(Idents(modules)) && Paths(modules) == old(Paths(modules))
        invariant EdgesExact(Idents(modules), ForthOf(modules, isAsync), pairs[..k])
        invariant ForthOf(modules, !isAsync) == old(ForthOf(modules, !isAsync))
      {
        assert pairs[..k + 1] == pairs[..k] + [pairs[k]];
        if pairs[k].0 == pairs[k].1 {
          SkipKeepsExact(Idents(modules), ForthOf(modules, isAsync), pairs[..k], pairs[k]);
        } else {
          panicked := InsertEdge(pairs[k], isAsync, pairs[..k]);
        }
      }
      assert pairs[..|pairs|] == pairs;
    }

    method InsertEdge(pair: (Module, Module), isAsync: bool, ghost before: seq<(Module, Module)>)
      returns (panicked: bool)
      requires Valid() && EdgesExact(Idents(modules), ForthOf(modules, isAsync), before)
      requires pair.0.ident in Idents(modules) && pair.1.ident in Idents(modules)
      modifies this`modules
      ensures !panicked && Valid()
      ensures Idents(modules) == old(Idents(modules)) && Paths(modules) == old(Paths(modules))
      ensures EdgesExact(Idents(modules), ForthOf(modules, isAsync), before + [pair])
      ensures ForthOf(modules, !isAsync) == old(ForthOf(modules, !isAsync))
    {
      var from := GetModule(pair.0.ident);
      var to := GetModule(pair.1.ident);
      panicked := from.None? || to.None?;
      if panicked {
        return;
      }
      AddEdgeKeepsExact(Idents(modules), ForthOf(modules, isAsync), before, pair, from.value, to.value);
      if from.value == to.value {
        return;
      }
      AddEdgeKeepsInverse(ForthOf(modules, isAsync), BackOf(modules, isAsync), |modules|, from.value, to.value);
      WithEdgeTables(modules, isAsync, from.value, to.value);
      modules := WithEdge(modules, isAsync, from.value, to.value);
    }

    // None is a panic of add_edges.
    method Build() returns (file: Option<ModulesFile>)
      requires Valid()
      ensures file.Some? ==> ShowsModules(file.value, TablesOf(modules))
      ensures file.Some? <==> ModulesFit(TablesOf(modules))
    {
      var t := TablesOf(modules);
      var dependencies := FromIterator(t.dependencies);
      var asyncDependencies := FromIterator(t.asyncDependencies);
      var dependents := FromIterator(t.dependents);
      var asyncDependents := FromIterator(t.asyncDependents);
      var section, refs := WriteTables(dependents, asyncDependents, dependencies, asyncDependencies, t);
      if refs == [] {
        return None;
      }
      EdgeTableReads(section, refs[0], t.dependents, t.dependencies, true);
      EdgeTableReads(section, refs[1], t.asyncDependents, t.asyncDependencies, true);
      EdgeTableReads(section, refs[2], t.dependencies, t.dependents, false);
      EdgeTableReads(section, refs[3], t.asyncDependencies, t.asyncDependents, false);
      return Some(ModulesFile(Idents(modules), Paths(modules), refs[0], refs[1], refs[2], refs[3], section));
    }
  }

  // ---------- analyze_module_graphs ----------

  lemma EdgeEndsKnown(edges: seq<GraphEdge>, isAsync: bool, idents: seq<string>)
    requires IdentsExact(idents, AllModules(edges))
    ensures forall p :: p in AllEdges(edges, isAsync) ==> p.0.ident in idents && p.1.ident in idents
  {
    forall p | p in AllEdges(edges, isAsync)
      ensures p.0.ident in idents && p.1.ident in idents
    {
      EdgeListed(edges, isAsync, p);
      ModuleListed(edges, p.0);
      ModuleListed(edges, p.1);
    }
  }

  method AnalyzeModuleGraphs(edges: seq<GraphEdge>) returns (file: Option<ModulesFile>, panicked: bool, ghost t: Tables)
    ensures !panicked
    ensures ValidTables(t)
    ensures IdentsExact(t.idents, AllModules(edges)) && PathsExact(t.idents, t.paths, AllModules(edges))
    ensures EdgesExact(t.idents, t.dependencies, AllEdges(edges, false))
    ensures EdgesExact(t.idents, t.asyncDependencies, AllEdges(edges, true))
    ensures file.Some? <==> ModulesFit(t)
    ensures file.Some? ==> ShowsModules(file.value, t)
  {
    var modules, syncEdges, asyncEdges := CollectGraph(edges);
    var builder := new ModulesDataBuilder();
    builder.EnsureModules(modules);
    EdgeEndsKnown(edges, false, Idents(builder.modules));
    EdgeEndsKnown(edges, true, Idents(builder.modules));
    var syncPanicked := builder.InsertEdges(syncEdges, false);
    var asyncPanicked := builder.InsertEdges(asyncEdges, true);
    panicked := syncPanicked || asyncPanicked;
    file := builder.Build();
    t := TablesOf(builder.modules);
    IndexedDistinct(t.idents, builder.moduleIndexMap);
    assert forall isAsync ::
        t.Forth(isAsync) == ForthOf(builder.modules, isAsync) && t.Back(isAsync) == BackOf(builder.modules, isAsync);
  }
}
