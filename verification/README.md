# Next.js bundle analyzer and repository tooling: a verified model

The bundle analyzer of Next.js is a pipeline. A Rust writer turns the parts of
the emitted chunks into a tree of sources, and the module graphs into tables of
dependencies and dependents, and packs both into binary files. A TypeScript
reader decodes those files one index at a time; on top of it the analyzer
computes module depths, explains why a module is in the bundle, and lays out a
treemap. This project models every stage of that pipeline and proves what each
stage and the pipeline as a whole promise. Beside it stand independent pieces
of the repository's tooling: test sharding and the log of passed tests, the
replay of commits as signed commits, the text-width cache, the environment
loader and the worker pool for log downloads.

| module | what it models |
|---|---|
| ModuleDepth | weighted module depths: a growing map as queue and visited set, with delayed buckets |
| EdgesFormat | edge tables: prefix sums and payload as big-endian 32-bit words, writer and reader |
| SourcePaths, SourceTree | splitting paths, and the tree and the sums that a set of paths determines |
| AnalyzeBuilder, AnalyzeReader | the writer and the reader of the analyze file, and the two end to end |
| ModulesData | the writer of the modules file: dependents as the inverse of dependencies |
| ImportChain, ImportExplanation | the chain of importers shown for a file, alone and end to end from the module graphs |
| TreemapLayout, TreemapTiling, TreemapCoverage | the squarified layout: areas, rounding, tiling |
| TreemapMetadata, TreemapNodes, TreemapNesting | precomputed totals, the nodes drawn from them, and their rectangles |
| Sharding | distribution of tests over CI jobs |
| Utf8, PassedTestsLog | the log that lets a retry skip tests, byte by byte |
| GitOutput, SignedCommits | parsing git's output, and replaying local commits through the GitHub API |
| TextWidthCache | the LRU cache of text widths and the truncation that uses it |
| EnvLoader | loading, resetting and force-reloading env files |
| WorkerPool | the worker pool, over all interleavings |
| Wrappers, Sequences, RealSums, Delimited | shared vocabulary |

Code that changes state is modelled by classes, and by methods with the loops
of the source; each is proved against a function or a predicate, and the laws
are lemmas about those. A thrown error or a panic is a result value. Where the
reader's recursions would not end on an arbitrary file, they take a ghost
measure, and it is proved that a written file has one.

## Where code and expectation differ

The model follows the code. Each difference is a lemma with a concrete input,
where one is needed, and the exact condition under which the expected property
holds.

- Treemap rectangles are not always upright: the last item of a strip takes
  what the rounded shares of the others leave, which can be negative
  (`NotEveryLayoutTiles`; exact condition in `LayoutTilesExactly`).
- A commit that turns a file into a directory is not reproduced by the replay,
  because listing the deleted path finds the directory, and its listing is
  uploaded. Neither is one whose first changed path begins with white space,
  because git's output is trimmed; if that path is all white space and nothing
  else changed, the replay fails for lack of changes (`FileToDirectoryIsLost`,
  `BlankPathIsLost`, `BlankPathIsNoChange`; exact conditions in
  `ReplayKeepsTrees` and `ReplaySucceedsExactly`).
- Messages are said to be preserved (nextjs/scripts/github-utils/signed-commit.js:232-233);
  they are trimmed (exact condition in `MessageKeptExactly`).
- Two calls can share a cached text width if one font in use is another one
  followed by a bar and more (`BarredFontsCollide`; exact condition in
  `KeysTellCallsApart`). The visualizer's own fonts are not of that kind
  (`UiFontsAreBarFree`).
- A forced reload does not reset variables named like a property that every
  object inherits, and no file sets them (`InheritedKeyOutlives`; the exact
  value of every key is in `ForcedLoadExact`).
- The log of passed tests is safe against a cut of one attempt, but a retry
  that appends to a cut log glues its first record to the partial one
  (`GluedNameIsSkipped`; exact condition, over any number of attempts, in
  `SkippedDidPassIff`).
- The precomputed treemap totals differ from the direct recursion where a
  directory owns chunk parts and its filter result differs from that of its
  leaves (`MixedDisagrees`; exact condition in `AgreementExactlyWhenFair`).
  Sizes of expanded directories then do not add up either (exact condition in
  `LayoutAdditiveExactly`).
- A default import chain is cut after 101 levels even if it is still descending
  (`LongLineIsCut`; exact condition in `DefaultChainReachesEntryIff`).
- The comment on a source's path (nextjs/crates/next-api/src/analyze.rs:63-65)
  allows several segments in one path; the code never produces that
  (`SegmentIsOne`). The comment on sorting dependents
  (nextjs/apps/bundle-analyzer/components/import-chain.tsx:259) names sync
  before async; the code sorts by depth, then ident length, then ident.

## Model

| member | source | states |
|---|---|---|
| ModuleDepth.ComputeModuleDepthMap | nextjs/apps/bundle-analyzer/lib/module-graph.ts:73-146 | The whole computation: it ends without the internal error, insertion order has non-decreasing depths, and the map holds exactly the modules reachable from an active entry, each at the least cost of all routes to it (1 per sync edge, 1000 per async edge). |
| ModuleDepth.Reachable | nextjs/apps/bundle-analyzer/lib/module-graph.ts:69-71 | A module has a depth if and only if some route leads to it. |
| ModuleDepth.ShortestDepthsUnique | nextjs/apps/bundle-analyzer/lib/module-graph.ts:69-71 | Reachability and least cost together admit only one map. |
| ModuleDepth.RelaxedIsOptimal | nextjs/apps/bundle-analyzer/lib/module-graph.ts:85-88 | If no edge out of a mapped module can be shortened, no route whatever is cheaper than the mapped depth. |
| ModuleDepth.RouteCost | nextjs/apps/bundle-analyzer/lib/module-graph.ts:91-104 | A route costs its number of sync edges plus 1000 times its number of async edges. |
| ModuleDepth.DepthCountsHops | nextjs/apps/bundle-analyzer/lib/module-graph.ts:73-146 | A module's depth is that number for some route to it, and at most that number for every route to it. |
| ModuleDepth.EdgeBounds | nextjs/apps/bundle-analyzer/lib/module-graph.ts:89-118 | Over the tables themselves: an edge out of a module with a depth leads to one that is at most 1 deeper, or 1000 if the edge is async. |
| ModuleDepth.DepthThroughEdge | nextjs/apps/bundle-analyzer/lib/module-graph.ts:80-118 | Entries have depth 0, and every other module is exactly that much deeper than some module with an edge to it. |
| ModuleDepth.SmallGraphPrefersSync | nextjs/apps/bundle-analyzer/lib/module-graph.ts:91-118 | If graph and entries mention at most 1000 modules, whatever a sync route reaches has a depth below 1000, and every route of that cost is sync only. |
| ModuleDepth.AsyncIsDeep | nextjs/apps/bundle-analyzer/lib/module-graph.ts:91-118 | A depth below 1000 always comes from a route without async edges. |
| ModuleDepth.InitialDepths | nextjs/apps/bundle-analyzer/lib/module-graph.ts:80-83 | The initial map, every entry at depth 0 and once even if repeated, meets the invariant of the main loop. |
| ModuleDepth.SetMissing | nextjs/apps/bundle-analyzer/lib/module-graph.ts:92-98 | Only missing members are added, at the end and at the given depth; nothing present moves or changes. |
| ModuleDepth.DelayMissing | nextjs/apps/bundle-analyzer/lib/module-graph.ts:100-118 | After the async loop exactly the undiscovered async dependencies are pending at their depth, besides what was pending; buckets stay in descending order with distinct depths. |
| ModuleDepth.Delay | nextjs/apps/bundle-analyzer/lib/module-graph.ts:104-116 | One module is queued in the bucket of its depth, created if there is none, and no other pending entry is lost or invented. |
| ModuleDepth.InsertByDepthSorts | nextjs/apps/bundle-analyzer/lib/module-graph.ts:112-114 | Re-sorting after a push of a new depth keeps the buckets strictly descending. |
| ModuleDepth.ScanModule | nextjs/apps/bundle-analyzer/lib/module-graph.ts:89-120 | Processing the next module keeps every invariant: routes found, insertion order, each edge settled or pending, depths at most one level apart from the next module. |
| ModuleDepth.ReleaseBucket | nextjs/apps/bundle-analyzer/lib/module-graph.ts:125-136 | Popping the shallowest due bucket into the map keeps those invariants. |
| ModuleDepth.ReleaseDue | nextjs/apps/bundle-analyzer/lib/module-graph.ts:122-136 | The release loop ends with every remaining bucket deeper than everything in the map, and none remaining when the queue has run dry. |
| ModuleDepth.BackAtHead | nextjs/apps/bundle-analyzer/lib/module-graph.ts:125-129 | When the release condition fails, the main loop's invariant holds again. |
| ModuleDepth.KeysBounded | nextjs/apps/bundle-analyzer/lib/module-graph.ts:89-90 | The map being iterated can only grow to the modules that the graph and the entries mention, which ends the loop. |
| ModuleDepth.Finished | nextjs/apps/bundle-analyzer/lib/module-graph.ts:139-145 | At the end no bucket remains and all depths are shortest. |
| EdgesFormat.WordRoundTrip | nextjs/crates/next-api/src/analyze.rs:48-57 | Reading four big-endian bytes back gives the written value modulo 2^32, and nothing else. |
| EdgesFormat.BigEndian | nextjs/crates/next-api/src/analyze.rs:48-57 | The most significant byte is written first: written words are ordered, byte by byte, as their values are. |
| EdgesFormat.FromIterator | nextjs/crates/next-api/src/analyze.rs:33-46 | The loop gives the concatenated lists, and for each list its end in the payload as a wrapping u32. |
| EdgesFormat.EdgesDataSectionBuilder.constructor | nextjs/crates/next-api/src/analyze.rs:158-160 | A new section is empty. |
| EdgesFormat.EdgesDataSectionBuilder.WriteWords | nextjs/crates/next-api/src/analyze.rs:50-55 | The loop appends the encoding of all words and leaves the bytes before it alone. |
| EdgesFormat.EdgesDataSectionBuilder.AddEdges | nextjs/crates/next-api/src/analyze.rs:162-167 | The table is appended and the reference delimits exactly its bytes; a conversion panics exactly when the offset or the length does not fit 32 bits. |
| EdgesFormat.ListInPayload | nextjs/crates/next-api/src/analyze.rs:33-46 | Between one list's start offset and the next lies exactly that list. |
| EdgesFormat.TableLength | nextjs/crates/next-api/src/analyze.rs:48-57 | An encoded table is one run of words: count, end offsets, payload. |
| EdgesFormat.OneTable | nextjs/crates/next-api/src/analyze.rs:33-57 | The table of the lists [7] and [8, 9], byte by byte. |
| EdgesFormat.HoldsAtEnd | nextjs/crates/next-api/src/analyze.rs:162-167 | A table just added is the one its reference points at. |
| EdgesFormat.HoldsAfter | nextjs/crates/next-api/src/analyze.rs:162-167 | Tables added later do not disturb it. |
| EdgesFormat.ReadValues | nextjs/apps/bundle-analyzer/lib/analyze-data.ts:295-306 | The value loop reads the run of words from its start, or runs off the end of the data. |
| EdgesFormat.ReadEdgesDataAtIndex | nextjs/apps/bundle-analyzer/lib/analyze-data.ts:259-307 | The branching reader is the simple bounds-then-words reader, out-of-range reads included. |
| EdgesFormat.RoundTrip | nextjs/apps/bundle-analyzer/lib/analyze-data.ts:259-307 | For every list of u32 lists and every section around it, reading at index i gives list i, and the empty list at any index outside. |
| EdgesFormat.TableReads | nextjs/apps/bundle-analyzer/lib/analyze-data.ts:106-154 | The same at all indices at once, for the reader of either class. |
| EdgesFormat.CutSectionExact | nextjs/apps/bundle-analyzer/lib/analyze-data.ts:259-307 | From a section cut at any byte, a list is read exactly if the last word it needs is there; otherwise a RangeError is thrown. |
| EdgesFormat.IndexTableReads | nextjs/apps/bundle-analyzer/lib/analyze-data.ts:309-325 | A table of indices below its own length is always read back whole. |
| SourcePaths.SplitJoins | nextjs/crates/next-api/src/analyze.rs:416-420 | Parent path and segment concatenate to the path, the segment is never empty and the parent is shorter. |
| SourcePaths.ParentIsDirectory | nextjs/crates/next-api/src/analyze.rs:416-420 | A parent is the root or ends with a slash, and a segment is one path segment. |
| SourcePaths.SegmentIsOne | nextjs/crates/next-api/src/analyze.rs:416-420 | In a segment only slashes follow a slash. |
| SourcePaths.ParentIsLongest | nextjs/crates/next-api/src/analyze.rs:416-420 | The parent of a path is its longest proper prefix that ends with a slash and is followed by another character, or the root if there is none. |
| SourcePaths.NestedDirectories | nextjs/crates/next-api/src/analyze.rs:416-420 | "src/lib/a.js" lies in "src/lib/", that in "src/", and that in the root. |
| SourcePaths.AncestorExactly | nextjs/crates/next-api/src/analyze.rs:412-429 | The ancestors of a path are itself, the root, and its prefixes that end with a slash and are followed by another character. |
| SourcePaths.ProjectSource | nextjs/crates/next-api/src/analyze.rs:390-391 | A source with the URL prefix is registered under the rest of its URL. |
| SourcePaths.OtherSource | nextjs/crates/next-api/src/analyze.rs:392-396 | Any other source is registered below "[project]/", without the steps up in front of it, however many. |
| SourcePaths.SiblingAncestorsCoincide | nextjs/crates/next-api/src/analyze.rs:416-424 | No path lies below two different children of one directory. |
| SourceTree.ParentsAndChildrenAgree | nextjs/crates/next-api/src/analyze.rs:423-426 | A child list holds exactly the sources that name its owner as parent. |
| SourceTree.ChildrenAscend | nextjs/crates/next-api/src/analyze.rs:423-426 | Child lists ascend. |
| SourceTree.PartsAscend | nextjs/crates/next-api/src/analyze.rs:405-406 | The lists of parts, of a source or of a file, ascend. |
| SourceTree.OneRoot | nextjs/crates/next-api/src/analyze.rs:105-106 | Exactly one source of a non-empty tree has no parent, the one of the empty path. |
| SourceTree.TreeIsRanked | nextjs/apps/bundle-analyzer/lib/analyze-data.ts:394-421 | Child edges shrink a measure, so every recursion over the written tree ends. |
| SourceTree.WalkFromRoot | nextjs/crates/next-api/src/analyze.rs:105-106 | Walking down from the root visits every source exactly once. |
| SourceTree.PartsPartition | nextjs/crates/next-api/src/analyze.rs:405-406 | Summed over all sources, the parts listed per source weigh what all parts weigh. |
| SourceTree.Conservation | nextjs/apps/bundle-analyzer/lib/analyze-data.ts:394-421 | The unfiltered recursive size of the root is the total of all chunk parts, for each of the two sizes. |
| SourceTree.ConservationBelow | nextjs/apps/bundle-analyzer/lib/analyze-data.ts:394-421 | For every source and every filter, the recursive size is the total of the chunk parts whose source lies at or below it, by path, and passes the filter. |
| AnalyzeBuilder.AnalyzeDataBuilder.constructor | nextjs/crates/next-api/src/analyze.rs:171-178 | A new builder is empty and valid. |
| AnalyzeBuilder.AnalyzeDataBuilder.EnsureSource | nextjs/crates/next-api/src/analyze.rs:180-196 | The index returned is that of the path, registered once and never moved. |
| AnalyzeBuilder.AnalyzeDataBuilder.AddOutputFile | nextjs/crates/next-api/src/analyze.rs:204-211 | A file with no parts is appended, at the index returned. |
| AnalyzeBuilder.AnalyzeDataBuilder.AddChunkPart | nextjs/crates/next-api/src/analyze.rs:198-202 | A part is appended, at the index returned. |
| AnalyzeBuilder.AnalyzeDataBuilder.StorePart | nextjs/crates/next-api/src/analyze.rs:399-406 | A stored part is listed under its source and under its file, and every other list is as before. |
| AnalyzeBuilder.AnalyzeDataBuilder.CollectPart | nextjs/crates/next-api/src/analyze.rs:388-407 | One part leaves exactly one record: path, file and both sizes; no source is registered but for a record. |
| AnalyzeBuilder.AnalyzeDataBuilder.CollectAsset | nextjs/crates/next-api/src/analyze.rs:386-407 | One asset adds its file name and the records of all its parts, in order. |
| AnalyzeBuilder.AnalyzeDataBuilder.CollectAssets | nextjs/crates/next-api/src/analyze.rs:379-408 | All assets but source maps and trace files are recorded, in order, and nothing else is. |
| AnalyzeBuilder.SkippedExactly | nextjs/crates/next-api/src/analyze.rs:381-384 | An asset is left out exactly if its name ends with ".map" or ".nft.json". |
| AnalyzeBuilder.NameAt | nextjs/crates/next-api/src/analyze.rs:386-386 | The file of an asset stands right after those of the assets before it, under its own name. |
| AnalyzeBuilder.NameOrigin | nextjs/crates/next-api/src/analyze.rs:379-386 | There is no file but those of assets that are not left out. |
| AnalyzeBuilder.RecordAt | nextjs/crates/next-api/src/analyze.rs:388-406 | The record of each part stands right after those of the parts before it, and has the part's source, its file's index and name, its compressed size, and the sum of the other two sizes modulo 2^32. |
| AnalyzeBuilder.RecordOrigin | nextjs/crates/next-api/src/analyze.rs:379-407 | There is no record but those of parts of assets that are not left out. |
| AnalyzeBuilder.AnalyzeDataBuilder.LinkSource | nextjs/crates/next-api/src/analyze.rs:413-427 | A linked source has its parent reference and segment, and is added to its parent's list; the parent is registered if need be. |
| AnalyzeBuilder.AnalyzeDataBuilder.ScanSource | nextjs/crates/next-api/src/analyze.rs:412-429 | One turn keeps the scanned prefix linked and registers only directories above recorded sources. |
| AnalyzeBuilder.LinkKeepsLinked | nextjs/crates/next-api/src/analyze.rs:423-426 | Linking source i leaves every other scanned source and every child list right. |
| AnalyzeBuilder.SourcesBounded | nextjs/crates/next-api/src/analyze.rs:412-429 | There are never more sources than prefixes of recorded paths, so the loop over its own growing vector ends. |
| AnalyzeBuilder.AnalyzeDataBuilder.BuildDirectories | nextjs/crates/next-api/src/analyze.rs:410-429 | The loop ends with every source linked. |
| AnalyzeBuilder.AnalyzeDataBuilder.ViewIsTree | nextjs/crates/next-api/src/analyze.rs:410-429 | Then the sources form one tree and the part lists partition the chunk parts by source and by file. |
| AnalyzeBuilder.CollectRoots | nextjs/crates/next-api/src/analyze.rs:226-237 | The roots written are the sources without a parent, ascending. |
| AnalyzeBuilder.SingleRoot | nextjs/crates/next-api/src/analyze.rs:226-237 | Of a non-empty tree that is one root, the source of the empty path. |
| AnalyzeBuilder.PartsTableLength | nextjs/crates/next-api/src/analyze.rs:242-246 | A table of parts holds each part once. |
| AnalyzeBuilder.WriteTables | nextjs/crates/next-api/src/analyze.rs:248-260 | The three references each point at their own table in the common section; it panics exactly when the section does not fit. |
| AnalyzeBuilder.AnalyzeDataBuilder.Build | nextjs/crates/next-api/src/analyze.rs:225-272 | The header and the section show a reader exactly the builder's sources, parts and lists. |
| AnalyzeBuilder.AnalyzeOutputAssets | nextjs/crates/next-api/src/analyze.rs:370-433 | For all assets: one well-formed tree, exactly the recorded parts, and a file that shows both, unless the section does not fit 32 bits. |
| AnalyzeBuilder.SourcesExact | nextjs/crates/next-api/src/analyze.rs:388-429 | The sources are the recorded paths and the directories above them, and nothing else. |
| AnalyzeReader.TreeParentsRanked | nextjs/apps/bundle-analyzer/lib/analyze-data.ts:328-338 | Parent references of a written file never form a cycle. |
| AnalyzeReader.FullPathRoundTrip | nextjs/apps/bundle-analyzer/lib/analyze-data.ts:328-338 | The segments up the parent chain concatenate to exactly the path under which the source was registered. |
| AnalyzeReader.FullPathByWalking | nextjs/apps/bundle-analyzer/lib/analyze-data.ts:328-338 | The recursion of the reader computes that path. |
| AnalyzeReader.BuildPathIndex | nextjs/apps/bundle-analyzer/lib/analyze-data.ts:214-219 | Every full path is indexed, at the last source that has it. |
| AnalyzeReader.PathIndexInverts | nextjs/apps/bundle-analyzer/lib/analyze-data.ts:232-234 | On a written file the index is the inverse of registration: a path maps to i if and only if source i was registered under it. |
| AnalyzeReader.GetOwnSizes | nextjs/apps/bundle-analyzer/lib/analyze-data.ts:340-355 | Read through the edge tables, the own sizes are the sums over the source's parts. |
| AnalyzeReader.GetRecursiveSizes | nextjs/apps/bundle-analyzer/lib/analyze-data.ts:394-421 | The recursion through the file adds the own sizes of the visible sources on the walk from the index. |
| AnalyzeReader.AddChildren | nextjs/apps/bundle-analyzer/lib/analyze-data.ts:408-415 | The child loop adds the walks of all children. |
| AnalyzeReader.GetRecursiveModuleCount | nextjs/apps/bundle-analyzer/lib/analyze-data.ts:357-375 | The recursion counts the visible sources with parts on the walk from the index. |
| AnalyzeReader.ModuleCountExact | nextjs/apps/bundle-analyzer/lib/analyze-data.ts:357-375 | Unfiltered from the root that is the number of different sources that were recorded. |
| AnalyzeReader.ModuleCountBelow | nextjs/apps/bundle-analyzer/lib/analyze-data.ts:357-375 | For every source and every filter, the count is the number of sources at or below it, by path, that pass the filter and own a part. |
| AnalyzeReader.RecordedTotals | nextjs/crates/next-api/src/analyze.rs:399-404 | The stored parts weigh what the input parts weigh (uncompressed sizes as wrapping u32 sums). |
| AnalyzeReader.WriteAndReadTotals | nextjs/crates/next-api/src/analyze.rs:370-433 | End to end: for all assets, writing the file and reading the unfiltered recursive sizes of its root gives exactly the recorded totals, if the section fits 32 bits. |
| ModulesData.CollectGraph | nextjs/crates/next-api/src/analyze.rs:439-459 | The traversal gives the distinct modules and the distinct sync and async edges. |
| ModulesData.InsertMembers | nextjs/crates/next-api/src/analyze.rs:439-459 | Inserting into an index set adds one member at the end if it is new, and never moves another. |
| ModulesData.ModuleListed | nextjs/crates/next-api/src/analyze.rs:446-447 | A module is listed if and only if it is an end of some edge. |
| ModulesData.EdgeListed | nextjs/crates/next-api/src/analyze.rs:448-455 | An edge is listed as async or as sync exactly when it occurs as such. |
| ModulesData.ModulesDataBuilder.constructor | nextjs/crates/next-api/src/analyze.rs:276-281 | A new builder is empty and valid. |
| ModulesData.ModulesDataBuilder.GetModule | nextjs/crates/next-api/src/analyze.rs:283-288 | It finds the module of the ident, and panics exactly when there is none. |
| ModulesData.ModulesDataBuilder.EnsureModule | nextjs/crates/next-api/src/analyze.rs:290-306 | An ident is added once, with the path it came with first. |
| ModulesData.ModulesDataBuilder.EnsureModules | nextjs/crates/next-api/src/analyze.rs:482-484 | The idents are those of the listed modules, and each has the path of the first module of that ident. |
| ModulesData.AddEdgeKeepsInverse | nextjs/crates/next-api/src/analyze.rs:504-509 | Inserting an edge and its reverse keeps dependents the inverse of dependencies, without duplicates and loops. |
| ModulesData.AddEdgeKeepsExact | nextjs/crates/next-api/src/analyze.rs:499-509 | After one more pair the edges are those asked for so far, pairs of equal index excepted. |
| ModulesData.SkipKeepsExact | nextjs/crates/next-api/src/analyze.rs:462-465 | Dropping an edge from a module to itself loses nothing that is asked for. |
| ModulesData.ModulesDataBuilder.InsertEdge | nextjs/crates/next-api/src/analyze.rs:498-510 | One turn of the edge loop inserts exactly the pair asked for, in the tables of its kind only. |
| ModulesData.ModulesDataBuilder.InsertEdges | nextjs/crates/next-api/src/analyze.rs:498-523 | Each edge loop inserts exactly its pairs, never panics, and leaves the tables of the other kind alone. |
| ModulesData.EdgeTableReads | nextjs/crates/next-api/src/analyze.rs:335-343 | Each of the four tables is read back whole. |
| ModulesData.WriteTables | nextjs/crates/next-api/src/analyze.rs:335-343 | The four references each point at their own table; it panics exactly when the section does not fit. |
| ModulesData.ModulesDataBuilder.Build | nextjs/crates/next-api/src/analyze.rs:308-353 | A reader sees exactly the builder's idents, paths and four tables. |
| ModulesData.AnalyzeModuleGraphs | nextjs/crates/next-api/src/analyze.rs:436-527 | For all graphs: no lookup panics, the edges written are exactly those between modules of different idents, per kind, and dependents are the inverse of dependencies. |
| ImportChain.SortSorts | nextjs/apps/bundle-analyzer/components/import-chain.tsx:259-271 | The choices are in non-decreasing depth, unreached modules last. |
| ImportChain.SortContents | nextjs/apps/bundle-analyzer/components/import-chain.tsx:259-271 | Sorting neither loses nor repeats a choice. |
| ImportChain.SortInOrder | nextjs/apps/bundle-analyzer/components/import-chain.tsx:259-271 | For a consistent comparison of idents the choices are in its order within equal depths, and equal ones sync before async. |
| ImportChain.SyncComesFirst | nextjs/apps/bundle-analyzer/components/import-chain.tsx:215-271 | A module that imports another both ways is offered as sync first, then as async. |
| ImportChain.StartsAmongExact | nextjs/apps/bundle-analyzer/components/import-chain.tsx:168-186 | The start modules are exactly those of the path that pass the route filter and the layer filter. |
| ImportChain.StartsAscend | nextjs/apps/bundle-analyzer/components/import-chain.tsx:168-186 | And they are offered in ascending order. |
| ImportChain.ChoicesExact | nextjs/apps/bundle-analyzer/components/import-chain.tsx:215-271 | The choices above a module are exactly its sync and async dependents that are unvisited and, on the current route only, reached. |
| ImportChain.OfferChoices | nextjs/apps/bundle-analyzer/components/import-chain.tsx:215-271 | Read through the edge tables, the choices are those. |
| ImportChain.BuildChain | nextjs/apps/bundle-analyzer/components/import-chain.tsx:161-303 | The chain is the one determined by the selections: each level the selected (or clamped) choice above the one before, stopping only when there is no choice, no module, or at 101 levels. |
| ImportChain.NoRepeats | nextjs/apps/bundle-analyzer/components/import-chain.tsx:233-237 | Whatever is selected, no module occurs twice. |
| ImportChain.SelectionShown | nextjs/apps/bundle-analyzer/components/import-chain.tsx:190-295 | Each level shows the selection made for it, the last choice if that is too large and the first if there is none, and is the module of that choice or start. |
| ImportChain.EveryStartIsShown | nextjs/apps/bundle-analyzer/components/import-chain.tsx:190-208 | Every start module is shown by some selection. |
| ImportChain.EveryChoiceIsShown | nextjs/apps/bundle-analyzer/components/import-chain.tsx:273-295 | Every choice above any chain below the cap is shown by some selection that leaves the levels below as they are. |
| ImportChain.StepsAreImports | nextjs/apps/bundle-analyzer/components/import-chain.tsx:215-231 | Whatever is selected, each level really imports the one before it, sync or async as marked. |
| ImportChain.ShallowerDependent | nextjs/apps/bundle-analyzer/components/import-chain.tsx:215-231 | With shortest depths and inverse tables, every module of positive depth has a strictly shallower dependent. |
| ImportChain.StepDescends | nextjs/apps/bundle-analyzer/components/import-chain.tsx:259-277 | So the first choice above such a module exists and is strictly shallower: no visited module is in the way. |
| ImportChain.DefaultChainDescends | nextjs/apps/bundle-analyzer/components/import-chain.tsx:214-299 | In the default view depths fall strictly, level by level, as long as they are positive. |
| ImportChain.DefaultChainContinues | nextjs/apps/bundle-analyzer/components/import-chain.tsx:239-242 | And the chain does not stop before depth 0 except at the level cap. |
| ImportChain.DepthZeroIsEntry | nextjs/apps/bundle-analyzer/lib/module-graph.ts:80-83 | Only active entries have depth 0. |
| ImportChain.DefaultChainReachesEntry | nextjs/apps/bundle-analyzer/components/import-chain.tsx:161-303 | The default chain reaches an active entry, or is cut at the cap while still descending. |
| ImportChain.FirstChoiceStable | nextjs/apps/bundle-analyzer/components/import-chain.tsx:233-277 | If every visited module is at least as deep as some bound and a choice is shallower, the first choice is the same as if nothing had been visited, whatever the tie-breaking comparison. |
| ImportChain.UpDescends | nextjs/apps/bundle-analyzer/components/import-chain.tsx:215-277 | The importer that comes first above a module of positive depth exists and is strictly shallower, so climbing from importer to importer ends. |
| ImportChain.DefaultChainReachesEntryIff | nextjs/apps/bundle-analyzer/components/import-chain.tsx:161-303 | In the default view the chain reaches an active entry exactly when its first start module climbs to depth 0 in at most 100 steps. |
| ImportChain.ClimbWithinDepth | nextjs/apps/bundle-analyzer/components/import-chain.tsx:297-298 | A climb has no more steps than the depth of its start, so starts of depth 100 or less always reach an entry. |
| ImportChain.LongLineIsCut | nextjs/apps/bundle-analyzer/components/import-chain.tsx:297-298 | A line of 102 modules on which the default chain is cut after 101 levels, one import short of the entry. |
| ImportChain.DefaultChainOfPath | nextjs/apps/bundle-analyzer/components/import-chain.tsx:161-303 | For a start path: no chain exactly when no module of the path is on the route and passes the layer filter; else an entry is reached exactly when the first such module climbs to depth 0 in 100 steps. |
| ImportExplanation.FileTablesExact | nextjs/apps/bundle-analyzer/lib/analyze-data.ts:106-154 | Read row by row, a written modules file gives back exactly the tables that were written. |
| ImportExplanation.ChainIsImportPath | nextjs/apps/bundle-analyzer/components/import-chain.tsx:161-303 | Every chain is a path of imports of the analyzed module graphs, sync or async as marked, without repetition. |
| ImportExplanation.ExplainPath | nextjs/apps/bundle-analyzer/components/import-chain.tsx:161-303 | End to end: for all module graphs, entries and start paths, writing the modules file, computing depths from its dependencies and climbing its dependents gives such a path, which reaches an active entry exactly when its start climbs to depth 0 in 100 steps. |
| Sharding.SmallestIsFirstLeast | nextjs/run-tests.js:532-547 | The group chosen has least time, and is the first such. |
| Sharding.AddTest | nextjs/run-tests.js:531-550 | One turn of the nested loop adds the test and its time to that group alone, after creating the missing groups. |
| Sharding.AssignGroups | nextjs/run-tests.js:526-550 | The loop over the tests is the greedy assignment. |
| Sharding.GreedyPartitions | nextjs/run-tests.js:526-550 | Every test is in the groups as often as it was listed. |
| Sharding.JobsRunEveryTest | nextjs/run-tests.js:552-586 | The jobs 1 to N together run every test as often as it was listed, also when no groups had to be created. |
| Sharding.TimesAreLoads | nextjs/run-tests.js:549-549 | An accumulated time is the sum of the times of the group's tests. |
| Sharding.LoadExact | nextjs/run-tests.js:549-549 | Tests with a recorded time other than zero take exactly that time together, and each other test takes one second. |
| Sharding.GreedyBalanced | nextjs/run-tests.js:526-550 | After any tests, no group exceeds the mean by more than (1 - 1/m) of the longest test, and no two differ by more than the longest test. |
| Sharding.GroupsDifferByOneTest | nextjs/run-tests.js:526-550 | The largest and the smallest group differ by at most the longest single test. |
| Sharding.MakespanBounds | nextjs/run-tests.js:526-550 | No assignment to m shards beats the mean load or the longest test. |
| Sharding.GreedyNearOptimal | nextjs/run-tests.js:526-550 | Every group's time is at most (2 - 1/m) times the makespan of every assignment of the same tests to m shards. |
| Sharding.RatioAttained | nextjs/run-tests.js:526-550 | For every number m of groups the factor is attained: m(m - 1) tests of time 1 and then one of time m, all distinct, for which another assignment takes m and the greedy group 2m - 1. |
| TreemapLayout.PickStrip | nextjs/apps/bundle-analyzer/lib/layout-treemap.ts:20-40 | The picking loop takes the shortest prefix that fills the strip, or everything. |
| TreemapTiling.PickedLeast | nextjs/apps/bundle-analyzer/lib/layout-treemap.ts:20-40 | A strip takes the least k for which k times the longer side times the sum of the first k items exceeds 0.9 times the shorter side times the sum of all items, or all items if no smaller number will do. |
| TreemapTiling.PickedEitherWay | nextjs/apps/bundle-analyzer/lib/layout-treemap.ts:20-40 | It takes as many when width and height are exchanged. |
| TreemapLayout.RoundExact | nextjs/apps/bundle-analyzer/lib/layout-treemap.ts:48-63 | Rounding is to the nearest integer, and up from the middle. |
| TreemapLayout.PlaceStrip | nextjs/apps/bundle-analyzer/lib/layout-treemap.ts:53-72 | The placing loop, in either orientation, gives the items of the specification, offsets accumulated. |
| TreemapLayout.NextStrip | nextjs/apps/bundle-analyzer/lib/layout-treemap.ts:17-112 | One turn places a strip and leaves the specified rectangle, items and total. |
| TreemapLayout.SquarifyLoop | nextjs/apps/bundle-analyzer/lib/layout-treemap.ts:12-118 | The loop over strips is the recursive layout, and works on the specified sequence of remaining rectangles. |
| TreemapLayout.LayoutTreemap | nextjs/apps/bundle-analyzer/lib/layout-treemap.ts:3-121 | The whole function is the recursive layout of the normalized sizes; for an empty rectangle and more than one size, every rectangle has sides that are not numbers. |
| TreemapLayout.PlacedExactly | nextjs/apps/bundle-analyzer/lib/layout-treemap.ts:3-10 | A single size fills the rectangle, also an empty one; of several, each has a rectangle exactly if the given one is not empty. |
| TreemapTiling.FourSquares | nextjs/apps/bundle-analyzer/lib/layout-treemap.ts:3-121 | Four equal sizes in a rectangle of 4 by 2 come out as two columns of two, each 2 by 1. |
| TreemapTiling.ExtentsFill | nextjs/apps/bundle-analyzer/lib/layout-treemap.ts:58-71 | The extents along a strip are integers and add up exactly to its side. |
| TreemapTiling.PlacedStripError | nextjs/apps/bundle-analyzer/lib/layout-treemap.ts:48-72 | In every strip the layout places, of k items, item j starts within j/2 of its exact offset and the last extent is within (k - 1)/2 of its exact share. |
| TreemapTiling.StripRoundingError | nextjs/apps/bundle-analyzer/lib/layout-treemap.ts:53-72 | The same for any shares that fill an integer side: in a strip of k items, item j starts within j/2 of its exact offset and the last extent is within (k - 1)/2 of its exact share. |
| TreemapTiling.StripSharesFill | nextjs/apps/bundle-analyzer/lib/layout-treemap.ts:63-63 | The exact shares of a strip fill its side, which the bound presupposes. |
| TreemapTiling.StripFacts | nextjs/apps/bundle-analyzer/lib/layout-treemap.ts:48-72 | A strip is an integer number of units wide, within the rectangle, and as wide as the rectangle when it takes all items. |
| TreemapTiling.RestInside | nextjs/apps/bundle-analyzer/lib/layout-treemap.ts:74-80 | What is left is an integer rectangle of non-negative sides inside the old one, with the same far corner. |
| TreemapTiling.ReachedInside | nextjs/apps/bundle-analyzer/lib/layout-treemap.ts:12-118 | Every rectangle the loop ever works on is an integer rectangle of non-negative sides inside the original, with the same far corner. |
| TreemapTiling.SquarifyArea | nextjs/apps/bundle-analyzer/lib/layout-treemap.ts:17-118 | The signed areas sum exactly to the area of the rectangle. |
| TreemapTiling.LayoutCountAndArea | nextjs/apps/bundle-analyzer/lib/layout-treemap.ts:3-121 | One rectangle per size, and for a non-empty input areas that sum exactly to width times height. |
| TreemapCoverage.FilledStrip | nextjs/apps/bundle-analyzer/lib/layout-treemap.ts:53-72 | A strip whose last extent is not negative covers each point of its slice once, and no other point. |
| TreemapCoverage.OverrunStrip | nextjs/apps/bundle-analyzer/lib/layout-treemap.ts:60-63 | A strip whose last extent is negative covers a point outside the rectangle. |
| TreemapCoverage.LastExtent | nextjs/apps/bundle-analyzer/lib/layout-treemap.ts:60-63 | The last extent is the side less the rounded shares of the others, so it may be negative. |
| TreemapCoverage.UprightWhenStripsFit | nextjs/apps/bundle-analyzer/lib/layout-treemap.ts:58-63 | No returned rectangle is inverted exactly when in each strip the rounded shares of all but the last do not exceed the side. |
| TreemapCoverage.SquarifyTiles | nextjs/apps/bundle-analyzer/lib/layout-treemap.ts:17-118 | The loop tiles its rectangle exactly when no rectangle it returns is inverted. |
| TreemapCoverage.LayoutTilesExactly | nextjs/apps/bundle-analyzer/lib/layout-treemap.ts:3-121 | For positive sizes the result covers each point once and nothing outside, exactly when every strip fits its side. |
| TreemapCoverage.LayoutTilesIffUpright | nextjs/apps/bundle-analyzer/lib/layout-treemap.ts:3-121 | Equivalently, exactly when no returned rectangle has one negative and one positive side. |
| TreemapCoverage.TilingIsDisjoint | nextjs/apps/bundle-analyzer/lib/layout-treemap.ts:3-121 | In a tiling no two rectangles overlap. |
| TreemapCoverage.NotEveryLayoutTiles | nextjs/apps/bundle-analyzer/lib/layout-treemap.ts:60-63 | A hundred sizes of 1 in a 2 by 16 rectangle, for which the result has an inverted rectangle and is no tiling. |
| TreemapMetadata.InitializeMetadata | nextjs/apps/bundle-analyzer/lib/treemap-layout.ts:51-73 | The backward pass gives every source its own sizes, leaves their filter result, and marks directories filtered. |
| TreemapMetadata.ProcessChildren | nextjs/apps/bundle-analyzer/lib/treemap-layout.ts:80-92 | The child loop finishes everything below the directory, touches nothing else, and totals the visible children. |
| TreemapMetadata.ProcessDirectory | nextjs/apps/bundle-analyzer/lib/treemap-layout.ts:76-97 | A call finishes exactly the sources below its index, in place, and leaves all others as they were. |
| TreemapMetadata.PrecomputeSourceMetadata | nextjs/apps/bundle-analyzer/lib/treemap-layout.ts:47-106 | Every entry of the array ends up with the filtered flag and totals of its subtree. |
| TreemapMetadata.HiddenExact | nextjs/apps/bundle-analyzer/lib/treemap-layout.ts:82-96 | A source is marked filtered exactly when the walk below it meets no visible leaf. |
| TreemapMetadata.AgreementExactlyWhenFair | nextjs/apps/bundle-analyzer/lib/treemap-layout.ts:75-97 | For all trees and filters: the totals agree everywhere with the direct recursion exactly when each source that owns parts passes the filter just if some leaf on the walk below it does. |
| TreemapMetadata.MixedDisagrees | nextjs/apps/bundle-analyzer/lib/treemap-layout.ts:84-96 | A tree written for two chunk parts, one of the root directory itself, and a filter for which the root is precomputed as 12 and summed up as 7. |
| TreemapMetadata.DirectoryTotal | nextjs/apps/bundle-analyzer/lib/treemap-layout.ts:84-95 | If directories own no parts, a directory's total is the direct recursion under the same filter. |
| TreemapNodes.SortBySizeContents | nextjs/apps/bundle-analyzer/lib/treemap-layout.ts:242-243 | Sorting keeps the visible children. |
| TreemapNodes.SortBySizeSorts | nextjs/apps/bundle-analyzer/lib/treemap-layout.ts:242-243 | And puts larger ones first. |
| TreemapNodes.SortBySizeOrders | nextjs/apps/bundle-analyzer/lib/treemap-layout.ts:242-243 | Of equally large children, the one of smaller index comes first if the child list ascends. |
| TreemapNodes.LaidOutExactly | nextjs/apps/bundle-analyzer/lib/treemap-layout.ts:205-227 | Every visible child is laid out as often as it is listed, and no hidden one is. |
| TreemapNodes.SizesLaidOut | nextjs/apps/bundle-analyzer/lib/treemap-layout.ts:217-227 | The laid-out sizes add up to those of the children and 1 for each child that has none. |
| TreemapNodes.FoldsExactly | nextjs/apps/bundle-analyzer/lib/treemap-layout.ts:127-146 | A source is drawn as its child exactly if it is a directory, the child is its only one and a directory, and the paths folded so far have at most 40 characters together. |
| TreemapNodes.NodeKindExactly | nextjs/apps/bundle-analyzer/lib/treemap-layout.ts:153-203 | The source a node shows is drawn as a file if it is none or an empty directory, else collapsed exactly if the rectangle is less than 30 high, with the number of items below it. |
| TreemapNodes.TitleBarExactly | nextjs/apps/bundle-analyzer/lib/treemap-layout.ts:168-171 | The title bar is an integer between 12 and 24 high: 12 up to a height of 120, 24 from 240, in between within a half of a tenth. |
| TreemapNodes.CountIsLeaves | nextjs/apps/bundle-analyzer/lib/treemap-layout.ts:181-190 | The item count of a collapsed directory is the number of leaves on the walk below it. |
| TreemapNodes.DirectoryWeight | nextjs/apps/bundle-analyzer/lib/treemap-layout.ts:205-227 | A directory weighs what the children laid out inside it weigh, and its own parts. |
| TreemapNodes.FoldDropsOwn | nextjs/apps/bundle-analyzer/lib/treemap-layout.ts:127-146 | Folding into an only child keeps visibility and drops exactly the own parts of the folded directory. |
| TreemapNodes.NodeSize | nextjs/apps/bundle-analyzer/lib/treemap-layout.ts:109-271 | The node drawn for a visible source has the source's total, less the own parts of the directories folded away. |
| TreemapNodes.LayoutAccounted | nextjs/apps/bundle-analyzer/lib/treemap-layout.ts:109-271 | In every layout of every tree, an expanded directory is as large as its layout children together, its own parts and the parts of directories folded away inside it. |
| TreemapNodes.LayoutAdditiveExactly | nextjs/apps/bundle-analyzer/lib/treemap-layout.ts:109-271 | For all trees, filters and rectangles: every expanded directory equals its layout children together exactly when none of them has own parts or folds parts away. |
| TreemapNodes.LayoutAdditive | nextjs/apps/bundle-analyzer/lib/treemap-layout.ts:109-271 | So if directories own no parts, every layout is additive, folded or not. |
| TreemapNesting.NodeRect | nextjs/apps/bundle-analyzer/lib/treemap-layout.ts:127-146 | A node fills exactly the rectangle it is given, folded or not. |
| TreemapNesting.ChildrenTileExactly | nextjs/apps/bundle-analyzer/lib/treemap-layout.ts:205-270 | The children of an expanded directory get the laid-out rectangles of its content in the order of their sizes, and tile the content exactly when every strip fits its side. |
| TreemapNesting.ContentInside | nextjs/apps/bundle-analyzer/lib/treemap-layout.ts:168-179 | The content of an expanded directory lies within its rectangle, below the title bar and 2 short of the far sides. |
| TreemapNesting.SquarifyOnGrid | nextjs/apps/bundle-analyzer/lib/layout-treemap.ts:12-118 | The layout of an integer rectangle has integer positions and sides throughout. |
| TreemapNesting.DrawnApart | nextjs/apps/bundle-analyzer/lib/treemap-layout.ts:109-271 | Over the whole tree: if every layout on the way fits, the nodes drawn without children together cover each point of the rectangle at most once and none outside it. |
| TreemapNesting.DrawnOnce | nextjs/apps/bundle-analyzer/lib/treemap-layout.ts:109-271 | So, for any two of these nodes, however deep in the tree, no point is covered by both, and none is covered outside the rectangle. |
| GitOutput.TrimKeepsExactly | nextjs/scripts/github-utils/signed-commit.js:36-44 | Trimming keeps a text exactly when neither end of it is white space. |
| GitOutput.TrimDrops | nextjs/scripts/github-utils/signed-commit.js:36-44 | What trimming drops is white space at both ends, and all of it. |
| GitOutput.WhiteCharacters | nextjs/scripts/github-utils/signed-commit.js:36-44 | The white characters, listed one by one. |
| GitOutput.ListedAscends | nextjs/scripts/github-utils/signed-commit.js:50-57 | Changed paths are listed in ascending order of their characters. |
| GitOutput.ListingLines | nextjs/scripts/github-utils/signed-commit.js:50-57 | The trimmed listing of changed paths splits into the first path without the white space in front of it, the other paths, and an empty end. |
| GitOutput.ParsedExactly | nextjs/scripts/github-utils/signed-commit.js:50-57 | For all sets of paths, exactly the changed paths are parsed if and only if the first of them does not begin with white space; if it does, it is not among them. |
| GitOutput.ParsedNothing | nextjs/scripts/github-utils/signed-commit.js:50-57 | Nothing is parsed exactly when nothing changed, or only one path that is all white space. |
| SignedCommits.NewEntryIsLookup | nextjs/scripts/github-utils/signed-commit.js:129-162 | The entry sent for a changed path is the local one exactly when the path is no directory of the local commit; only files are assumed to be named by the hash of their content. |
| SignedCommits.CreatedTreeExact | nextjs/scripts/github-utils/signed-commit.js:129-176 | For any set of paths that is sent, the created tree is the local tree exactly when the base agrees with it outside the set and no path of the set is a local directory. |
| SignedCommits.NothingListed | nextjs/scripts/github-utils/signed-commit.js:118-127 | A commit is taken for one without changes exactly when it has none, or changes only a file whose path is all white space. |
| SignedCommits.ReplayedTreeExact | nextjs/scripts/github-utils/signed-commit.js:110-176 | On the commit's own parent tree: it fails exactly if no change shows and that is not allowed, and otherwise reproduces the tree exactly when no file becomes a directory and the first changed path does not begin with white space. |
| SignedCommits.FileToDirectoryIsLost | nextjs/scripts/github-utils/signed-commit.js:63-104 | A concrete commit that turns a file into a directory: the created tree has a directory entry at the old path that names the uploaded listing. |
| SignedCommits.BlankPathIsLost | nextjs/scripts/github-utils/signed-commit.js:36-57 | A concrete commit whose added file, with a blank in front of its name, is lost. |
| SignedCommits.BlankPathIsNoChange | nextjs/scripts/github-utils/signed-commit.js:36-57 | A concrete commit that adds a file and fails as one without changes. |
| SignedCommits.ReplayLocalCommitsAsSigned | nextjs/scripts/github-utils/signed-commit.js:237-303 | The loop is the step-by-step replay: same chain, same final name, same first error. |
| SignedCommits.ReplayFailsEarly | nextjs/scripts/github-utils/signed-commit.js:264-296 | An error at some commit is the error of the whole replay. |
| SignedCommits.ReplayMakesChain | nextjs/scripts/github-utils/signed-commit.js:259-300 | A successful replay is a chain rooted at the base, of the same length and with the trimmed messages, each commit under the name GitHub gave it. |
| SignedCommits.MessageKeptExactly | nextjs/scripts/github-utils/signed-commit.js:268-288 | A replayed message is the local one exactly when no white space stands at either end of it. |
| SignedCommits.ReplayKeepsTrees | nextjs/scripts/github-utils/signed-commit.js:264-300 | For linear histories every signed tree is the corresponding local tree exactly when no step turns a file into a directory and no step's first changed path begins with white space. |
| SignedCommits.ReplaySucceedsExactly | nextjs/scripts/github-utils/signed-commit.js:120-127 | If all commits come back verified, a replay fails exactly on a commit that shows no change when empty ones are not allowed. |
| SignedCommits.ReplayEndsLikeSingleCommit | nextjs/scripts/github-utils/signed-commit.js:183-225 | If every step is reproduced, the final tree is the tip's own, and the tree of one signed commit from base to tip exactly when the range as a whole meets the same condition. |
| TextWidthCache.TextWidths.MeasureTextCached | nextjs/apps/bundle-analyzer/components/treemap-visualizer.tsx:88-114 | One call returns the cached or measured width and leaves the cache of the specification, eviction and reordering included. |
| TextWidthCache.TextWidths.TruncateTextWithEllipsisIfNeeded | nextjs/apps/bundle-analyzer/components/treemap-visualizer.tsx:116-146 | The text itself if it fits, else a prefix that fits with the ellipsis; only the two cached measurements touch the cache. |
| TextWidthCache.LongestFitting | nextjs/apps/bundle-analyzer/components/treemap-visualizer.tsx:127-143 | The binary search yields a prefix that fits, the longest one if widths grow with length. |
| TextWidthCache.KeptExactly | nextjs/apps/bundle-analyzer/components/treemap-visualizer.tsx:127-143 | If widths grow with length, exactly the prefixes up to the one kept leave room for the ellipsis. |
| TextWidthCache.RecencyExact | nextjs/apps/bundle-analyzer/components/treemap-visualizer.tsx:94-100 | Recency order lists exactly the used keys, each once, by last use. |
| TextWidthCache.CacheIsRecent | nextjs/apps/bundle-analyzer/components/treemap-visualizer.tsx:86-114 | After any calls the cache holds exactly the most recently used distinct keys, at most its capacity, in recency order. |
| TextWidthCache.CachedExactly | nextjs/apps/bundle-analyzer/components/treemap-visualizer.tsx:86-114 | After any calls a width is cached exactly if its key was used and fewer than 30,000 other keys were used since. |
| TextWidthCache.KeysTellCallsApart | nextjs/apps/bundle-analyzer/components/treemap-visualizer.tsx:92-92 | Keys identify calls exactly when no font is another one followed by a bar and more. |
| TextWidthCache.NoBarsIsBarFree | nextjs/apps/bundle-analyzer/components/treemap-visualizer.tsx:92-92 | Fonts without a bar are enough for that. |
| TextWidthCache.Transparent | nextjs/apps/bundle-analyzer/components/treemap-visualizer.tsx:88-114 | Then, after any calls, every call returns the true width of its own font and text. |
| TextWidthCache.NotTransparent | nextjs/apps/bundle-analyzer/components/treemap-visualizer.tsx:92-100 | Otherwise two calls exist of which the second returns the width of the first. |
| TextWidthCache.BarredFontsCollide | nextjs/apps/bundle-analyzer/components/treemap-visualizer.tsx:92-100 | Two concrete fonts and texts for which it does. |
| TextWidthCache.UiFontsAreBarFree | nextjs/apps/bundle-analyzer/components/treemap-visualizer.tsx:92-92 | The fonts of the form the visualizer sets, whatever their sizes, are told apart. |
| EnvLoader.Loader.ReplaceProcessEnv | nextjs/packages/next-env/index.ts:29-43 | Afterwards the environment is the source environment plus the private variables and those the source also sets. |
| EnvLoader.Loader.DropMissing | nextjs/packages/next-env/index.ts:30-38 | Key by key, exactly the non-private variables missing or empty in the source are deleted. |
| EnvLoader.Loader.AssignAll | nextjs/packages/next-env/index.ts:40-42 | All variables of the source are assigned, and no others change. |
| EnvLoader.Loader.AddParsed | nextjs/packages/next-env/index.ts:85-94 | A file's variables are added unless an earlier file or the initial environment defines them, or every object inherits the key. |
| EnvLoader.Loader.ParseAll | nextjs/packages/next-env/index.ts:66-104 | The loop over the files adds them in order, skipping files that fail to parse. |
| EnvLoader.Loader.ProcessEnvFiles | nextjs/packages/next-env/index.ts:45-106 | The new state, the early return without forcing included. |
| EnvLoader.ProcessExact | nextjs/packages/next-env/index.ts:45-106 | The value of every key afterwards, forced or not: nothing changes without force when there are no files or the flag is set; else the first file's value, the flag, or the old value. |
| EnvLoader.Loader.Reset | nextjs/packages/next-env/index.ts:108-112 | The environment is replaced by the initial one, if that was captured. |
| EnvLoader.ResetExact | nextjs/packages/next-env/index.ts:108-112 | The value of every key after a reset; nothing else of the loader changes. |
| EnvLoader.UpdateIsRestored | nextjs/packages/next-env/index.ts:20-22 | An update leaves the environment alone, and a later reset or forced load brings the updated variable into it, over every file. |
| EnvLoader.EarlyUpdateIsLost | nextjs/packages/next-env/index.ts:20-22 | Before anything is captured an update changes nothing, now or later. |
| EnvLoader.Loader.ReadDotenvFiles | nextjs/packages/next-env/index.ts:148-171 | The files that exist are read in order of precedence; missing and unreadable ones are passed over. |
| EnvLoader.Loader.Load | nextjs/packages/next-env/index.ts:114-180 | The whole new state of a load, the cached return included. |
| EnvLoader.UnforcedLoadExact | nextjs/packages/next-env/index.ts:114-180 | The value of every key after an unforced load that is not cached: that of a forced load, unless the initial environment sets the flag or no file exists; then only the environment is replaced. |
| EnvLoader.LoadedStays | nextjs/packages/next-env/index.ts:136-138 | Once loaded, an unforced load changes nothing. |
| EnvLoader.LoadRemembers | nextjs/packages/next-env/index.ts:139-178 | A load keeps the files read before it and those it reads, which the initial environment's mode determines, and the variables it added. |
| EnvLoader.FilesByMode | nextjs/packages/next-env/index.ts:143-153 | The file names in order of precedence, for each mode. |
| EnvLoader.FirstLoadReads | nextjs/packages/next-env/index.ts:114-180 | A first unforced load on an empty environment with one file ".env" that sets A to 1 leaves A and the flag, and nothing else. |
| EnvLoader.PrivateKeys | nextjs/packages/next-env/index.ts:30-33 | The keys that are never deleted are those that begin with "__NEXT_PRIVATE". |
| EnvLoader.AddedExact | nextjs/packages/next-env/index.ts:66-104 | For each key the files add the first file's value, and nothing for keys of the initial environment and for inherited keys. |
| EnvLoader.ForcedLoadExact | nextjs/packages/next-env/index.ts:114-180 | The value of every key after a forced load, private and inherited ones and the processed flag included, from whatever state. |
| EnvLoader.InheritedKeyOutlives | nextjs/packages/next-env/index.ts:30-38 | A concrete key that a forced load does not reset: a plain object inherits it. |
| EnvLoader.ForcedLoadForgetsHistory | nextjs/packages/next-env/index.ts:114-180 | An ordinary key has its initial value, else the first file's, else none. |
| EnvLoader.InitialEnvKept | nextjs/packages/next-env/index.ts:20-54 | Over all loads, resets, updates and outside changes, each key of the captured initial environment has the value of its last update, else its captured value. |
| EnvLoader.AnyHistoryIsForgotten | nextjs/packages/next-env/index.ts:114-180 | After a first load and any further events, a forced load gives an ordinary key the value of its last update, else its value before the first load, else that of the first file, chosen by the mode, that defines it. |
| PassedTestsLog.PassedTests.RecordPassed | nextjs/run-tests.js:854-864 | One record and its terminator are appended. |
| PassedTestsLog.PassedTests.RecordAll | nextjs/run-tests.js:854-864 | Recording tests one after another appends the encoding of all of them. |
| Utf8.RunChar | nextjs/run-tests.js:854-864 | From every state of the decoder, an encoded character ends what is unfinished and is read back. |
| Utf8.DecodeAround | nextjs/run-tests.js:133-133 | Encoded text is read back whatever bytes, well-formed or cut, stand before and after it. |
| Utf8.DecodedExactly | nextjs/run-tests.js:133-133 | Bytes are read without a replacement character exactly if they are the encoding of a text without one, and then of the text that is read. |
| Utf8.CutCharacter | nextjs/run-tests.js:133-133 | A character cut after any byte is read as one replacement character. |
| Utf8.StrayBytes | nextjs/run-tests.js:133-133 | Bytes with which no character begins are read as one replacement character each. |
| Delimited.SplitRecords | nextjs/run-tests.js:137-138 | Splitting complete records followed by other text gives the records and that text. |
| PassedTestsLog.SplitDecoded | nextjs/run-tests.js:133-138 | Splitting the decoded log gives the decoded pieces of the split bytes: no cut character swallows a terminator. |
| PassedTestsLog.LoadedExactly | nextjs/run-tests.js:128-146 | Nothing is loaded without caching or without a readable log; else exactly the tests of the records before the last terminator, and the empty name if the log ends with a terminator. |
| PassedTestsLog.CutSplits | nextjs/run-tests.js:134-136 | A log cut after any byte, even within a character, is its complete records and part of the next one. |
| PassedTestsLog.CutLogExact | nextjs/run-tests.js:128-146 | For every cut of a log begun empty, at any byte, a test is skipped exactly when its record and terminator lie before the cut. |
| PassedTestsLog.AppendedLogExact | nextjs/run-tests.js:128-146 | Records appended to any log and cut anywhere add exactly the complete ones to what is skipped, the first glued to what the log had left unfinished. |
| PassedTestsLog.SkippedExact | nextjs/run-tests.js:128-146 | Over any number of attempts, each cut anywhere, exactly the records so read are skipped. |
| PassedTestsLog.SkippedDidPassIff | nextjs/run-tests.js:128-146 | Over any number of attempts, each cut anywhere, every skipped test did pass exactly when each attempt completed no record, or found nothing unfinished, or its first record as glued names a test that passed in some attempt. |
| PassedTestsLog.OneAttemptIsSafe | nextjs/run-tests.js:128-146 | So after a single run without a failed write in between, every skipped test did pass. |
| PassedTestsLog.GluedNameIsSkipped | nextjs/run-tests.js:134-138 | Two attempts after which a test that never ran is skipped. |
| WorkerPool.StepKeepsInv | nextjs/scripts/pr-logs.js:213-218 | Every turn of every worker keeps the accounting: given as often as completed, failed or in flight; the queue is a suffix of the items. |
| WorkerPool.RunKeepsInv | nextjs/scripts/pr-logs.js:209-222 | So it holds after every interleaving. |
| WorkerPool.EachItemOnce | nextjs/scripts/pr-logs.js:209-222 | After every interleaving the mapper has been given a prefix of the items, each once and in order, with at most min(limit, n) calls in flight. |
| WorkerPool.WithinLimit | nextjs/scripts/pr-logs.js:211-217 | In no interleaving are more mapper calls in flight than the limit or than there are items. |
| WorkerPool.LimitReached | nextjs/scripts/pr-logs.js:211-217 | And some interleaving has exactly the smaller of these numbers in flight. |
| WorkerPool.InFlightExact | nextjs/scripts/pr-logs.js:211-217 | The calls in flight are the workers that await the mapper, each counted once. |
| WorkerPool.SettledPool | nextjs/scripts/pr-logs.js:213-221 | When no worker can go on, each item is completed, failed, or left over, and left over only if every worker failed. |
| WorkerPool.AllDoneIff | nextjs/scripts/pr-logs.js:209-222 | Without failures the queue ends empty and every item completed, exactly when the limit is positive or there was nothing to do. |
| WorkerPool.RunsAreShort | nextjs/scripts/pr-logs.js:213-218 | No run has more turns than workers and items together, so every run settles. |

## Left out

- The JSON text of the headers, its encoding and length prefix, ropes and the asynchronous plumbing of turbo-tasks: a header is a record, a file is that record and the binary section.
- Casting vector lengths to u32 indices: the model keeps them unbounded. Sections that do not fit 32 bits are modelled, as panics of the writer.
- Splitting an output asset into parts, URL decoding and compression: a part arrives decoded and with its sizes.
- `sourceChunks`, `getSourceFlags` and the other plain accessors of the reader; `combine_output_assets`, which concatenates.
- The heuristics that choose active entries: the set of entries is arbitrary.
- Looking up the source of a module and splitting idents for display in the import chain; the layer test is an arbitrary predicate, the tie-breaking comparison of idents an arbitrary relation.
- The round-robin split without recorded timings, parsing of the group option, and the deduplication before it.
- GroupsDifferByOneTest: needs non-negative recorded times, as do GreedyBalanced and GreedyNearOptimal; the other sharding results hold for all times.
- Floating-point drift: sizes, widths and times are exact reals.
- LayoutTreemap: requires positive sizes, as its caller passes, because the code divides by their total. For an empty rectangle only the outcome of the divisions by zero is modelled, not the arithmetic that leads to it. The branch for an empty pick (nextjs/apps/bundle-analyzer/lib/layout-treemap.ts:42-46) cannot be taken, and the two mirrored orientations share one body.
- ComputeLayout: names, flags and the special-module type of a node are not modelled.
- PrecomputeSourceMetadata: takes a source tree as the writer produces it, with its one root; on a file whose child lists form a cycle the code does not end.
- DirectoryTotal: assumes that directories own no chunk parts, as does LayoutAdditive; AgreementExactlyWhenFair and LayoutAdditiveExactly cover all trees.
- Git and GitHub themselves: a tree is a map from full paths to entries, the tree endpoint an overlay with deletions, an uploaded blob is named by the hash of its content. Merge commits, root commits and unparsable `ls-tree` output are not modelled; GitHub refusing a tree is not either.
- Paths that are not valid UTF-8, which git prints as bytes: a path is a sequence of characters.
- ReplayKeepsTrees: is about linear histories; ReplayMakesChain holds for any list of commits.
- Parsing and expanding env files is an arbitrary function of the contents; a library that writes to the environment by itself, the reload callback, the parsed variables stored on each file, and a variable named `__proto__` are not modelled.
- Test file names with unpaired surrogates, which have no UTF-8 encoding of their own.
- EachItemOnce: when the outer promise of the pool rejects is not modelled; the workers' turns are.
- React components, canvas drawing and search, network access, process spawning, and the build and release scripts.
