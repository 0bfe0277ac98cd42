// Why a module is in the bundle, end to end: the module graphs are written to a file, depths are
// computed from the file's dependencies, and the chain climbs the file's dependents.
module ImportExplanation {
  import opened Wrappers
  import opened Sequences
  import opened EdgesFormat
  import opened ModulesData
  import opened ModuleDepth
  import opened ImportChain

  // ---------- The tables that a file shows ----------

  function Row(binary: seq<Byte>, ref: EdgesDataReference, m: nat): seq<nat> {
    var row := ReadEdges(binary, ref, m);
    if row.Some? then row.value else []
  }

  function Rows(file: ModulesFile, ref: EdgesDataReference): seq<seq<nat>> {
    seq(|file.idents|, m requires 0 <= m < |file.idents| => Row(file.binary, ref, m))
  }

  function FileTables(file: ModulesFile): Tables {
    Tables(file.idents, file.paths, Rows(file, file.moduleDependencies), Rows(file, file.asyncModuleDependencies),
           Rows(file, file.moduleDependents), Rows(file, file.asyncModuleDependents))
  }

  lemma RowsExact(file: ModulesFile, ref: EdgesDataReference, table: seq<seq<nat>>)
    requires Reads(file.binary, ref, table) && |table| == |file.idents|
    ensures Rows(file, ref) == table
  {
    forall m: nat | m < |table|
      ensures Rows(file, ref)[m] == table[m]
    {
      assert ReadEdges(file.binary, ref, m) == Some(table[m]);
    }
  }

  lemma FileTablesExact(file: ModulesFile, t: Tables)
    requires ShowsModules(file, t) && ValidTables(t)
    ensures FileTables(file) == t
  {
    assert Inverse(t.Forth(false), t.Back(false), |t.idents|) && Inverse(t.Forth(true), t.Back(true), |t.idents|);
    RowsExact(file, file.moduleDependencies, t.dependencies);
    RowsExact(file, file.asyncModuleDependencies, t.asyncDependencies);
    RowsExact(file, file.moduleDependents, t.dependents);
    RowsExact(file, file.asyncModuleDependents, t.asyncDependents);
  }

  // ---------- Chains in terms of the module graphs ----------

  ghost predicate Imports(edges: seq<GraphEdge>, from: string, to: string, isAsync: bool) {
    exists e :: e in edges && e.isAsync == isAsync && e.from.ident == from && e.to.ident == to
  }

  // Level `k + 1` is a module that imports level `k`, in the way it is marked.
  ghost predicate IsImport(edges: seq<GraphEdge>, idents: seq<string>, chain: seq<ChainLevel>, k: nat)
    requires k + 1 < |chain|
  {
    var below, above := chain[k], chain[k + 1];
    && below.moduleIndex < |idents| && above.moduleIndex < |idents| && above.via.Some?
    && Imports(edges, idents[above.moduleIndex], idents[below.moduleIndex], above.via.value.isAsync)
  }

  ghost predicate IsImportPath(edges: seq<GraphEdge>, idents: seq<string>, chain: seq<ChainLevel>) {
    forall k :: 0 <= k < |chain| - 1 ==> IsImport(edges, idents, chain, k)
  }

  ghost predicate TablesOfEdges(t: Tables, edges: seq<GraphEdge>) {
    && ValidTables(t)
    && EdgesExact(t.idents, t.dependencies, AllEdges(edges, false))
    && EdgesExact(t.idents, t.asyncDependencies, AllEdges(edges, true))
  }

  lemma EdgeIsImport(edges: seq<GraphEdge>, t: Tables, isAsync: bool, i: nat, j: nat)
    requires TablesOfEdges(t, edges) && Edge(t.Forth(isAsync), i, j)
    ensures i < |t.idents| && j < |t.idents| && Imports(edges, t.idents[i], t.idents[j], isAsync)
  {
    assert Inverse(t.Forth(isAsync), t.Back(isAsync), |t.idents|);
    assert Asked(t.idents, AllEdges(edges, isAsync), i, j);
    var p :| p in AllEdges(edges, isAsync) && p.0.ident == t.idents[i] && p.1.ident == t.idents[j];
    EdgeListed(edges, isAsync, p);
  }

  lemma ChainIsImportPath(edges: seq<GraphEdge>, x: Inputs, startPath: string, layerAllowed: nat -> bool,
                          chain: seq<ChainLevel>)
    requires TablesOfEdges(x.t, edges) && IsChain(x, StartModules(x, startPath, layerAllowed), chain)
    ensures IsImportPath(edges, x.t.idents, chain) && Distinct(Modules(chain))
  {
    if chain != [] {
      var starts := StartModules(x, startPath, layerAllowed);
      NoRepeats(x, starts, chain);
      forall k | 0 <= k < |chain| - 1
        ensures IsImport(edges, x.t.idents, chain, k)
      {
        StepsAreImports(x, starts, chain, k);
        EdgeIsImport(edges, x.t, chain[k + 1].via.value.isAsync, chain[k + 1].moduleIndex, chain[k].moduleIndex);
      }
    }
  }

  // ---------- End to end ----------

  // What the default view shows for a path: a path of imports without repetition that reaches an
  // active entry exactly when its start climbs to depth 0 in 100 steps.
  ghost predicate Explains(edges: seq<GraphEdge>, x: Inputs, entries: seq<nat>, starts: seq<nat>,
                           chain: seq<ChainLevel>) {
    && DefaultView(x, entries) && IsChain(x, starts, chain)
    && IsImportPath(edges, x.t.idents, chain) && Distinct(Modules(chain))
    && (chain == [] <==> starts == [])
    && (chain != [] ==>
          && starts[0] in x.depthMap
          && (ReachesEntry(entries, chain) <==> Climb(x, entries, starts[0]) <= 100))
  }

  lemma ChainExplains(edges: seq<GraphEdge>, x: Inputs, entries: seq<nat>, startPath: string, layerAllowed: nat -> bool,
                      chain: seq<ChainLevel>)
    requires TablesOfEdges(x.t, edges) && DefaultView(x, entries)
    requires IsChain(x, StartModules(x, startPath, layerAllowed), chain)
    ensures Explains(edges, x, entries, StartModules(x, startPath, layerAllowed), chain)
  {
    ChainIsImportPath(edges, x, startPath, layerAllowed, chain);
    DefaultChainOfPath(x, entries, startPath, layerAllowed, chain);
  }

  // The explanation of a path on the current route, nothing being selected; none if the file cannot be written.
  method ExplainPath(edges: seq<GraphEdge>, activeEntries: seq<string> -> seq<nat>, startPath: string,
                     layerAllowed: nat -> bool, compareIdents: (string, string) -> int)
    returns (idents: seq<string>, chain: Option<seq<ChainLevel>>, ghost t: Tables, ghost x: Inputs)
    ensures chain.Some? ==> IsImportPath(edges, idents, chain.value) && Distinct(Modules(chain.value))
    ensures TablesOfEdges(t, edges) && IdentsExact(t.idents, AllModules(edges))
    ensures chain.Some? <==> ModulesFit(t)
    ensures chain.Some? ==>
              && x.t == t && idents == t.idents
              && Explains(edges, x, activeEntries(t.idents), StartModules(x, startPath, layerAllowed), chain.value)
  {
    var file, panicked;
    file, panicked, t := AnalyzeModuleGraphs(edges);
    idents, chain, x := [], None, Inputs(t, map[], true, [], compareIdents);
    if file.None? {
      return;
    }
    FileTablesExact(file.value, t);
    var tables := FileTables(file.value);
    var entries := activeEntries(file.value.idents);
    var depthMap, threw := ComputeModuleDepthMap(GraphOf(tables), entries);
    var inputs := Inputs(tables, depthMap.depth, true, [], compareIdents);
    var levels := BuildChain(file.value, inputs, startPath, layerAllowed);
    ChainExplains(edges, inputs, entries, startPath, layerAllowed, levels);
    idents, chain, x := file.value.idents, Some(levels), inputs;
  }
}
