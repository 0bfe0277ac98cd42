// The writer of analyze.data: AnalyzeDataBuilder, the collection loop and the directory loop of
// analyze_output_assets in analyze.rs.
module AnalyzeBuilder {
  import opened Wrappers
  import opened Sequences
  import opened SourcePaths
  import opened SourceTree
  import opened EdgesFormat

  datatype SourceBuilder = SourceBuilder(source: Source, childSourceIndices: seq<nat>, chunkPartIndices: seq<nat>) {
    function PushPart(k: nat): SourceBuilder {
      this.(chunkPartIndices := chunkPartIndices + [k])
    }

    function PushChild(k: nat): SourceBuilder {
      this.(childSourceIndices := childSourceIndices + [k])
    }
  }

  datatype OutputFileBuilder = OutputFileBuilder(filename: string, chunkPartIndices: seq<nat>) {
    function PushPart(k: nat): OutputFileBuilder {
      this.(chunkPartIndices := chunkPartIndices + [k])
    }
  }

  // ---------- The builder's invariants, on values ----------

  ghost predicate LinkedAt(s: SourceBuilder, paths: seq<string>, n: nat, i: nat)
    requires n <= |paths| && i < |paths|
  {
    && s.childSourceIndices == ChildrenOf(paths[..n], paths[i])
    && if i < n then Placed(s.source, paths, paths[i]) else s.source == Source(None, paths[i])
  }

  // The first `n` sources are linked to their parents, the others are as registered.
  ghost predicate Linked(sources: seq<SourceBuilder>, paths: seq<string>, n: nat) {
    && |sources| == |paths| && n <= |paths|
    && forall i :: 0 <= i < |paths| ==> LinkedAt(sources[i], paths, n, i)
  }

  lemma ChildrenOfNext(paths: seq<string>, n: nat, dir: string)
    requires n < |paths|
    ensures ChildrenOf(paths[..n + 1], dir)
            == ChildrenOf(paths[..n], dir) + if paths[n] != "" && ParentPath(paths[n]) == dir then [n] else []
  {
    assert paths[..n + 1][..n] == paths[..n];
  }

  ghost predicate OwnParts(sources: seq<SourceBuilder>, parts: seq<ChunkPart>) {
    && (forall k :: 0 <= k < |parts| ==> parts[k].sourceIndex < |sources|)
    && (forall i :: 0 <= i < |sources| ==> sources[i].chunkPartIndices == PartsOf(parts, BY_SOURCE, i))
  }

  ghost predicate FileParts(files: seq<OutputFileBuilder>, parts: seq<ChunkPart>) {
    && (forall k :: 0 <= k < |parts| ==> parts[k].outputFileIndex < |files|)
    && (forall i :: 0 <= i < |files| ==> files[i].chunkPartIndices == PartsOf(parts, BY_OUTPUT_FILE, i))
  }

  // No scanned source has a parent that is not registered.
  lemma {:induction false} NoChildrenYet(sources: seq<SourceBuilder>, paths: seq<string>, n: nat, m: nat, dir: string)
    requires Linked(sources, paths, n) && m <= n
    requires dir !in paths
    ensures ChildrenOf(paths[..m], dir) == []
  {
    if m > 0 {
      NoChildrenYet(sources, paths, n, m - 1, dir);
      ChildrenOfNext(paths, m - 1, dir);
      assert LinkedAt(sources[m - 1], paths, n, m - 1);
    }
  }

  lemma {:induction false} NoPartsBeyond(parts: seq<ChunkPart>, owner: ChunkPart -> nat, i: nat)
    requires forall k :: 0 <= k < |parts| ==> owner(parts[k]) != i
    ensures PartsOf(parts, owner, i) == []
  {
    if parts != [] { NoPartsBeyond(parts[..|parts| - 1], owner, i); }
  }

  lemma RegisterKeepsLinked(sources: seq<SourceBuilder>, paths: seq<string>, n: nat, path: string)
    requires Linked(sources, paths, n) && path !in paths
    ensures Linked(sources + [SourceBuilder(Source(None, path), [], [])], paths + [path], n)
  {
    NoChildrenYet(sources, paths, n, n, path);
    var paths' := paths + [path];
    assert paths'[..n] == paths[..n];
    forall i | 0 <= i < |paths|
      ensures LinkedAt(sources[i], paths', n, i)
    {
      assert LinkedAt(sources[i], paths, n, i);
    }
  }

  // The sources after source `n` has been linked below `parent`.
  function LinkedBelow(sources: seq<SourceBuilder>, n: nat, parent: nat, segment: string): (r: seq<SourceBuilder>)
    requires n < |sources| && parent < |sources|
    ensures |r| == |sources|
    ensures forall i :: 0 <= i < |sources| ==>
              r[i].childSourceIndices == sources[i].childSourceIndices + if i == parent then [n] else []
    ensures forall i :: 0 <= i < |sources| ==>
              r[i].source == if i == n then Source(Some(parent), segment) else sources[i].source
    ensures forall i :: 0 <= i < |sources| ==> r[i].chunkPartIndices == sources[i].chunkPartIndices
  {
    var pushed := sources[parent := sources[parent].PushChild(n)];
    pushed[n := pushed[n].(source := Source(Some(parent), segment))]
  }

  lemma LinkKeepsLinked(sources: seq<SourceBuilder>, paths: seq<string>, n: nat, parent: nat,
                        linked: seq<SourceBuilder>)
    requires Linked(sources, paths, n) && n < |paths| && Distinct(paths)
    requires paths[n] != "" && parent < |paths| && paths[parent] == ParentPath(paths[n])
    requires linked == LinkedBelow(sources, n, parent, Segment(paths[n]))
    ensures Linked(linked, paths, n + 1)
  {
    forall i | 0 <= i < |paths|
      ensures LinkedAt(linked[i], paths, n + 1, i)
    {
      assert LinkedAt(sources[i], paths, n, i);
      ChildrenOfNext(paths, n, paths[i]);
    }
  }

  lemma LinkKeepsParts(sources: seq<SourceBuilder>, parts: seq<ChunkPart>, n: nat, parent: nat, segment: string)
    requires OwnParts(sources, parts) && n < |sources| && parent < |sources|
    ensures OwnParts(LinkedBelow(sources, n, parent, segment), parts)
  {
  }

  lemma RootKeepsLinked(sources: seq<SourceBuilder>, paths: seq<string>, n: nat)
    requires Linked(sources, paths, n) && n < |paths| && paths[n] == ""
    ensures Linked(sources, paths, n + 1)
  {
    forall i | 0 <= i < |paths|
      ensures LinkedAt(sources[i], paths, n + 1, i)
    {
      assert LinkedAt(sources[i], paths, n, i);
      ChildrenOfNext(paths, n, paths[i]);
    }
  }

  // ---------- The file ----------

  datatype Header = Header(sources: seq<Source>, chunkParts: seq<ChunkPart>, outputFiles: seq<string>,
                           outputFileChunkParts: EdgesDataReference, sourceChunkParts: EdgesDataReference,
                           sourceChildren: EdgesDataReference, sourceRoots: seq<nat>)

  datatype AnalyzeFile = AnalyzeFile(header: Header, binary: seq<Byte>)

  ghost predicate Shows(file: AnalyzeFile, v: View) {
    && file.header.sources == v.sources
    && file.header.chunkParts == v.chunkParts
    && Reads(file.binary, file.header.sourceChildren, v.children)
    && Reads(file.binary, file.header.sourceChunkParts, v.sourceParts)
    && Reads(file.binary, file.header.outputFileChunkParts, v.fileParts)
  }

  // ---------- Every index that is written fits 32 bits ----------

  lemma {:induction false} FlattenLength(lists: seq<seq<nat>>, w: nat -> nat)
    requires forall i :: 0 <= i < |lists| ==> w(i) == |lists[i]|
    ensures |Flatten(lists)| == Sum(w, UpTo(|lists|))
  {
    if lists != [] {
      FlattenLength(lists[..|lists| - 1], w);
      assert UpTo(|lists|)[..|lists| - 1] == UpTo(|lists| - 1);
    }
  }

  const ONE: ChunkPart -> nat := (p: ChunkPart) => 1

  lemma {:induction false} CountOfParts(parts: seq<ChunkPart>)
    ensures TotalWeight(parts, ONE) == |parts|
  {
    if parts != [] { CountOfParts(parts[..|parts| - 1]); }
  }

  lemma {:induction false} SumOfOnes(w: nat -> nat, xs: seq<nat>)
    requires forall x: nat :: x in xs ==> w(x) == 1
    ensures Sum(w, xs) == |xs|
  {
    if xs != [] { SumOfOnes(w, xs[..|xs| - 1]); }
  }

  // A table of parts holds as many indices as there are parts.
  lemma PartsTableLength(table: seq<seq<nat>>, parts: seq<ChunkPart>, owner: ChunkPart -> nat)
    requires ListsParts(table, parts, owner)
    ensures |Flatten(table)| == |parts|
  {
    var w := OwnedWeight(parts, owner, ONE);
    forall i | 0 <= i < |table|
      ensures w(i) == |table[i]|
    {
      PartsOfMembers(parts, owner, i);
      SumOfOnes(PartWeight(parts, ONE), table[i]);
    }
    FlattenLength(table, w);
    PartsPartition(parts, owner, ONE, |table|);
    CountOfParts(parts);
  }

  lemma PartsTableReads(binary: seq<Byte>, ref: EdgesDataReference, table: seq<seq<nat>>, parts: seq<ChunkPart>,
                        owner: ChunkPart -> nat)
    requires ListsParts(table, parts, owner) && Holds(binary, ref, table) && ref.length < U32_LIMIT
    ensures Reads(binary, ref, table)
  {
    PartsTableLength(table, parts, owner);
    TableLength(table);
    forall i, k | 0 <= i < |table| && 0 <= k < |table[i]|
      ensures table[i][k] < |parts|
    {
      PartsOfMembers(parts, owner, i);
      assert table[i][k] in table[i];
    }
    FlattenMembers(table, |parts|);
    TableReads(binary, ref, table);
  }

  lemma ChildTableReads(binary: seq<Byte>, ref: EdgesDataReference, table: seq<seq<nat>>, paths: seq<string>)
    requires |table| == |paths| && forall i :: 0 <= i < |table| ==> table[i] == ChildrenOf(paths, paths[i])
    requires Holds(binary, ref, table) && ref.length < U32_LIMIT
    ensures Reads(binary, ref, table)
  {
    forall i, k | 0 <= i < |table| && 0 <= k < |table[i]|
      ensures table[i][k] < |table|
    {
      ChildOf(paths, paths[i], table[i][k]);
      assert table[i][k] in table[i];
    }
    IndexTableReads(binary, ref, table);
  }

  // ---------- Input ----------

  // One part of a chunk: its URL-decoded source and its sizes.
  datatype PartInput = PartInput(decodedSource: string, realSize: nat, unaccountedSize: nat, compressedSize: nat)

  datatype Asset = Asset(filename: string, parts: seq<PartInput>)

  // What has to be recorded for a part.
  datatype Record = Record(path: string, outputFile: nat, size: nat, compressedSize: nat)

  predicate EndsWith(s: string, suffix: string) {
    |s| >= |suffix| && s[|s| - |suffix|..] == suffix
  }

  predicate Skipped(a: Asset) {
    EndsWith(a.filename, ".map") || EndsWith(a.filename, ".nft.json")
  }

  // The sum of the two sizes is a u32.
  function RecordOf(p: PartInput, outputFile: nat): Record {
    Record(SourcePath(p.decodedSource), outputFile, (p.realSize + p.unaccountedSize) % U32_LIMIT, p.compressedSize)
  }

  function PartRecords(parts: seq<PartInput>, outputFile: nat): seq<Record> {
    seq(|parts|, k requires 0 <= k < |parts| => RecordOf(parts[k], outputFile))
  }

  function FileNames(assets: seq<Asset>): seq<string> {
    if assets == [] then []
    else
      var last := assets[|assets| - 1];
      FileNames(assets[..|assets| - 1]) + if Skipped(last) then [] else [last.filename]
  }

  function RecordsOf(assets: seq<Asset>): seq<Record> {
    if assets == [] then []
    else
      var init, last := assets[..|assets| - 1], assets[|assets| - 1];
      RecordsOf(init) + if Skipped(last) then [] else PartRecords(last.parts, |FileNames(init)|)
  }

  lemma EndsWithExactly(s: string, suffix: string)
    ensures EndsWith(s, suffix) <==> exists stem :: s == stem + suffix
  {
    if EndsWith(s, suffix) {
      assert s == s[..|s| - |suffix|] + suffix;
    }
    if stem :| s == stem + suffix {
      assert s[|s| - |suffix|..] == suffix;
    }
  }

  // Source maps and trace files are left out, and nothing else.
  lemma SkippedExactly(a: Asset)
    ensures Skipped(a) <==> exists stem :: a.filename == stem + ".map" || a.filename == stem + ".nft.json"
  {
    EndsWithExactly(a.filename, ".map");
    EndsWithExactly(a.filename, ".nft.json");
  }

  // The record is that of part `p` of asset `a`.
  ghost predicate Describes(r: Record, names: seq<string>, a: Asset, p: PartInput) {
    && r.outputFile < |names| && names[r.outputFile] == a.filename
    && r.path == SourcePath(p.decodedSource) && r.compressedSize == p.compressedSize
    && r.size < 0x1_0000_0000 && exists wraps: nat :: p.realSize + p.unaccountedSize == r.size + wraps * 0x1_0000_0000
  }

  lemma {:induction false} RecordsGrow(assets: seq<Asset>, i: nat)
    requires i <= |assets|
    ensures RecordsOf(assets[..i]) <= RecordsOf(assets) && FileNames(assets[..i]) <= FileNames(assets)
  {
    if i == |assets| {
      assert assets[..i] == assets;
    } else {
      RecordsGrow(assets[..|assets| - 1], i);
      assert assets[..|assets| - 1][..i] == assets[..i];
    }
  }

  // The file of an asset follows those of the assets before it.
  lemma NameAt(assets: seq<Asset>, i: nat)
    requires i < |assets| && !Skipped(assets[i])
    ensures var f := |FileNames(assets[..i])|; f < |FileNames(assets)| && FileNames(assets)[f] == assets[i].filename
  {
    assert assets[..i + 1][..i] == assets[..i];
    RecordsGrow(assets, i + 1);
  }

  // And there are no other files.
  lemma {:induction false} NameOrigin(assets: seq<Asset>, f: nat) returns (i: nat)
    requires f < |FileNames(assets)|
    ensures i < |assets| && !Skipped(assets[i]) && f == |FileNames(assets[..i])|
  {
    var n := |assets| - 1;
    if f < |FileNames(assets[..n])| {
      i := NameOrigin(assets[..n], f);
      assert assets[..n][..i] == assets[..i];
    } else {
      i := n;
    }
  }

  lemma RecordDescribes(p: PartInput, f: nat, names: seq<string>, a: Asset)
    requires f < |names| && names[f] == a.filename
    ensures Describes(RecordOf(p, f), names, a, p)
  {
    var whole := p.realSize + p.unaccountedSize;
    assert whole == whole % 0x1_0000_0000 + whole / 0x1_0000_0000 * 0x1_0000_0000;
  }

  lemma RecordsNext(assets: seq<Asset>, i: nat)
    requires i < |assets| && !Skipped(assets[i])
    ensures RecordsOf(assets[..i + 1])
            == RecordsOf(assets[..i]) + PartRecords(assets[i].parts, |FileNames(assets[..i])|)
  {
    assert assets[..i + 1][..i] == assets[..i];
  }

  lemma RecordPlaced(assets: seq<Asset>, i: nat, j: nat)
    requires i < |assets| && !Skipped(assets[i]) && j < |assets[i].parts|
    ensures var k := |RecordsOf(assets[..i])| + j;
            k < |RecordsOf(assets)| && RecordsOf(assets)[k] == RecordOf(assets[i].parts[j], |FileNames(assets[..i])|)
  {
    var before, here := RecordsOf(assets[..i]), PartRecords(assets[i].parts, |FileNames(assets[..i])|);
    RecordsGrow(assets, i + 1);
    RecordsNext(assets, i);
    PrefixAt(before, here, RecordsOf(assets), j);
  }

  // The records of an asset follow those of the assets before it, in the order of its parts.
  lemma RecordAt(assets: seq<Asset>, i: nat, j: nat)
    requires i < |assets| && !Skipped(assets[i]) && j < |assets[i].parts|
    ensures var k := |RecordsOf(assets[..i])| + j;
            && k < |RecordsOf(assets)|
            && Describes(RecordsOf(assets)[k], FileNames(assets), assets[i], assets[i].parts[j])
  {
    NameAt(assets, i);
    RecordPlaced(assets, i, j);
    RecordDescribes(assets[i].parts[j], |FileNames(assets[..i])|, FileNames(assets), assets[i]);
  }

  // And there are no other records.
  lemma {:induction false} RecordOrigin(assets: seq<Asset>, k: nat) returns (i: nat, j: nat)
    requires k < |RecordsOf(assets)|
    ensures i < |assets| && !Skipped(assets[i]) && j < |assets[i].parts| && k == |RecordsOf(assets[..i])| + j
  {
    var n := |assets| - 1;
    var before := RecordsOf(assets[..n]);
    if k < |before| {
      i, j := RecordOrigin(assets[..n], k);
      assert assets[..n][..i] == assets[..i];
    } else {
      i, j := n, k - |before|;
    }
  }

  ghost predicate Matches(part: ChunkPart, record: Record, paths: seq<string>) {
    && part.sourceIndex < |paths| && paths[part.sourceIndex] == record.path
    && part.outputFileIndex == record.outputFile
    && part.size == record.size && part.compressedSize == record.compressedSize
  }

  ghost predicate Recorded(parts: seq<ChunkPart>, records: seq<Record>, paths: seq<string>) {
    && |parts| == |records|
    && forall k :: 0 <= k < |parts| ==> Matches(parts[k], records[k], paths)
  }

  // No source but those of the records, so far.
  ghost predicate OnlyRecorded(paths: seq<string>, records: seq<Record>) {
    forall p :: p in paths ==> exists k :: 0 <= k < |records| && records[k].path == p
  }

  // No source but those of the records and their directories.
  ghost predicate OnlyAncestors(paths: seq<string>, records: seq<Record>) {
    forall p :: p in paths ==> exists k :: 0 <= k < |records| && IsAncestor(p, records[k].path)
  }

  lemma PartAddedToSource(sources: seq<SourceBuilder>, parts: seq<ChunkPart>, p: ChunkPart,
                          sources': seq<SourceBuilder>)
    requires OwnParts(sources, parts) && p.sourceIndex < |sources| && |sources'| == |sources|
    requires forall i :: 0 <= i < |sources| ==>
               sources'[i].chunkPartIndices
               == sources[i].chunkPartIndices + if i == p.sourceIndex then [|parts|] else []
    ensures OwnParts(sources', parts + [p])
  {
  }

  lemma PartAddedToFile(files: seq<OutputFileBuilder>, parts: seq<ChunkPart>, p: ChunkPart,
                        files': seq<OutputFileBuilder>)
    requires FileParts(files, parts) && p.outputFileIndex < |files| && |files'| == |files|
    requires forall i :: 0 <= i < |files| ==>
               files'[i].chunkPartIndices
               == files[i].chunkPartIndices + if i == p.outputFileIndex then [|parts|] else []
    ensures FileParts(files', parts + [p])
  {
  }

  lemma FileAdded(files: seq<OutputFileBuilder>, parts: seq<ChunkPart>, filename: string)
    requires FileParts(files, parts)
    ensures FileParts(files + [OutputFileBuilder(filename, [])], parts)
  {
    NoPartsBeyond(parts, BY_OUTPUT_FILE, |files|);
  }

  // ---------- Writing the tables ----------

  // No table is too long for a 32-bit length, and each starts at a 32-bit offset.
  ghost predicate SectionFits(v: View) {
    var files, parts, children :=
      |Encode(EdgesOf(v.fileParts))|, |Encode(EdgesOf(v.sourceParts))|, |Encode(EdgesOf(v.children))|;
    files < U32_LIMIT && parts < U32_LIMIT && children < U32_LIMIT && files + parts < U32_LIMIT
  }

  // The three tables, written one after another into one section.
  method WriteTables(files: EdgesData, parts: EdgesData, children: EdgesData, ghost v: View)
    returns (section: seq<Byte>, refs: Option<(EdgesDataReference, EdgesDataReference, EdgesDataReference)>)
    requires files == EdgesOf(v.fileParts) && parts == EdgesOf(v.sourceParts) && children == EdgesOf(v.children)
    ensures refs.Some? <==> SectionFits(v)
    ensures refs.Some? ==>
              && Holds(section, refs.value.0, v.fileParts) && refs.value.0.length < U32_LIMIT
              && Holds(section, refs.value.1, v.sourceParts) && refs.value.1.length < U32_LIMIT
              && Holds(section, refs.value.2, v.children) && refs.value.2.length < U32_LIMIT
  {
    var builder := new EdgesDataSectionBuilder();
    section := [];
    var fileRef := builder.AddEdges(files);
    if fileRef.None? { return [], None; }
    HoldsAtEnd([], v.fileParts);
    assert [] + Encode(files) == Encode(files);
    ghost var one := builder.data;
    var partRef := builder.AddEdges(parts);
    if partRef.None? { return [], None; }
    HoldsAtEnd(one, v.sourceParts);
    HoldsAfter(one, fileRef.value, v.fileParts, Encode(parts));
    ghost var two := builder.data;
    var childRef := builder.AddEdges(children);
    if childRef.None? { return [], None; }
    HoldsAtEnd(two, v.children);
    HoldsAfter(two, fileRef.value, v.fileParts, Encode(children));
    HoldsAfter(two, partRef.value, v.sourceParts, Encode(children));
    return builder.data, Some((fileRef.value, partRef.value, childRef.value));
  }

  function RootsOf(sources: seq<Source>): seq<nat> {
    if sources == [] then []
    else
      var n := |sources| - 1;
      RootsOf(sources[..n]) + if sources[n].parent.None? then [n] else []
  }

  method CollectRoots(sources: seq<Source>) returns (roots: seq<nat>)
    ensures roots == RootsOf(sources)
  {
    roots := [];
    for i := 0 to |sources|
      invariant roots == RootsOf(sources[..i])
    {
      assert sources[..i + 1][..i] == sources[..i];
      if sources[i].parent.None? {
        roots := roots + [i];
      }
    }
    assert sources[..|sources|] == sources;
  }

  // ---------- Termination of the directory loop ----------

  ghost function Prefixes(records: seq<Record>): set<string> {
    set k, l | 0 <= k < |records| && 0 <= l <= |records[k].path| :: records[k].path[..l]
  }

  lemma SourcesBounded(paths: seq<string>, index: map<string, nat>, records: seq<Record>)
    requires Indexes(index, paths) && OnlyAncestors(paths, records)
    ensures |paths| <= |Prefixes(records)|
  {
    forall p | p in paths
      ensures p in Prefixes(records)
    {
      var k :| 0 <= k < |records| && IsAncestor(p, records[k].path);
      AncestorIsPrefix(p, records[k].path);
      assert records[k].path[..|p|] == p;
    }
    IndexedDistinct(paths, index);
    DistinctBound(paths, Prefixes(records));
  }

  lemma ParentKeepsAncestors(paths: seq<string>, records: seq<Record>, i: nat, paths': seq<string>)
    requires OnlyAncestors(paths, records) && i < |paths| && paths[i] != ""
    requires paths' == if ParentPath(paths[i]) in paths then paths else paths + [ParentPath(paths[i])]
    ensures OnlyAncestors(paths', records)
  {
    assert paths[i] in paths;
    var k :| 0 <= k < |records| && IsAncestor(paths[i], records[k].path);
    ParentOfAncestor(paths[i], records[k].path);
  }

  // ---------- The builder ----------

  ghost predicate SameNames(a: seq<OutputFileBuilder>, b: seq<OutputFileBuilder>) {
    |a| == |b| && forall i :: 0 <= i < |a| ==> a[i].filename == b[i].filename
  }

  function Names(files: seq<OutputFileBuilder>): seq<string> {
    seq(|files|, i requires 0 <= i < |files| => files[i].filename)
  }

  lemma PartRecorded(parts: seq<ChunkPart>, records: seq<Record>, paths: seq<string>, paths': seq<string>,
                     part: ChunkPart, record: Record)
    requires Recorded(parts, records, paths) && paths <= paths' && Matches(part, record, paths')
    ensures Recorded(parts + [part], records + [record], paths')
  {
  }

  lemma RecordsExtended(paths: seq<string>, records: seq<Record>, paths': seq<string>, record: Record)
    requires OnlyRecorded(paths, records)
    requires paths' == if record.path in paths then paths else paths + [record.path]
    ensures OnlyRecorded(paths', records + [record])
  {
    forall p | p in paths'
      ensures exists k :: 0 <= k < |records + [record]| && (records + [record])[k].path == p
    {
      if p in paths {
        var k :| 0 <= k < |records| && records[k].path == p;
        assert (records + [record])[k].path == p;
      } else {
        assert (records + [record])[|records|].path == p;
      }
    }
  }

  class AnalyzeDataBuilder {
    var sources: seq<SourceBuilder>
    var sourceIndexMap: map<string, nat>
    var chunkParts: seq<ChunkPart>
    var outputFiles: seq<OutputFileBuilder>
    ghost var paths: seq<string>

    // The builder when the first `n` sources are linked.
    ghost predicate Valid(n: nat)
      reads this
    {
      && Indexes(sourceIndexMap, paths)
      && Linked(sources, paths, n)
      && OwnParts(sources, chunkParts)
      && FileParts(outputFiles, chunkParts)
    }

    constructor ()
      ensures Valid(0) && paths == [] && chunkParts == [] && outputFiles == []
    {
      sources, sourceIndexMap, chunkParts, outputFiles, paths := [], map[], [], [], [];
    }

    method EnsureSource(path: string, ghost n: nat) returns (index: nat)
      requires Valid(n)
      modifies this`sources, this`sourceIndexMap, this`paths
      ensures Valid(n)
      ensures index < |paths| && paths[index] == path
      ensures paths == if path in old(paths) then old(paths) else old(paths) + [path]
      ensures old(sources) <= sources
    {
      IndexedMembers(paths, sourceIndexMap, path);
      if path in sourceIndexMap {
        return sourceIndexMap[path];
      }
      index := |sources|;
      NoPartsBeyond(chunkParts, BY_SOURCE, index);
      RegisterKeepsLinked(sources, paths, n, path);
      sourceIndexMap := sourceIndexMap[path := index];
      sources := sources + [SourceBuilder(Source(None, path), [], [])];
      paths := paths + [path];
    }

    method AddChunkPart(part: ChunkPart) returns (i: nat)
      modifies this`chunkParts
      ensures i == |old(chunkParts)| && chunkParts == old(chunkParts) + [part]
    {
      i := |chunkParts|;
      chunkParts := chunkParts + [part];
    }

    method AddOutputFile(filename: string) returns (i: nat)
      modifies this`outputFiles
      ensures i == |old(outputFiles)| && outputFiles == old(outputFiles) + [OutputFileBuilder(filename, [])]
    {
      i := |outputFiles|;
      outputFiles := outputFiles + [OutputFileBuilder(filename, [])];
    }

    method AddChunkPartToOutputFile(outputFileIndex: nat, chunkPartIndex: nat)
      requires outputFileIndex < |outputFiles|
      modifies this`outputFiles
      ensures outputFiles
              == old(outputFiles)[outputFileIndex := old(outputFiles)[outputFileIndex].PushPart(chunkPartIndex)]
    {
      outputFiles := outputFiles[outputFileIndex := outputFiles[outputFileIndex].PushPart(chunkPartIndex)];
    }

    method AddChunkPartToSource(sourceIndex: nat, chunkPartIndex: nat)
      requires sourceIndex < |sources|
      modifies this`sources
      ensures sources == old(sources)[sourceIndex := old(sources)[sourceIndex].PushPart(chunkPartIndex)]
    {
      sources := sources[sourceIndex := sources[sourceIndex].PushPart(chunkPartIndex)];
    }

    // Store a part and list it under its output file and its source.
    method StorePart(part: ChunkPart)
      requires Valid(0) && part.sourceIndex < |sources| && part.outputFileIndex < |outputFiles|
      modifies this`sources, this`chunkParts, this`outputFiles
      ensures Valid(0) && chunkParts == old(chunkParts) + [part]
      ensures SameNames(outputFiles, old(outputFiles))
    {
      PartAddedToSource(sources, chunkParts, part,
                        sources[part.sourceIndex := sources[part.sourceIndex].PushPart(|chunkParts|)]);
      PartAddedToFile(outputFiles, chunkParts, part,
                      outputFiles[part.outputFileIndex := outputFiles[part.outputFileIndex].PushPart(|chunkParts|)]);
      var chunkPartIndex := AddChunkPart(part);
      AddChunkPartToOutputFile(part.outputFileIndex, chunkPartIndex);
      AddChunkPartToSource(part.sourceIndex, chunkPartIndex);
    }

    // One turn of the loop over chunk parts.
    method CollectPart(part: PartInput, outputFileIndex: nat, ghost records: seq<Record>)
      requires Valid(0) && Recorded(chunkParts, records, paths) && OnlyRecorded(paths, records)
      requires outputFileIndex < |outputFiles|
      modifies this
      ensures Valid(0)
      ensures Recorded(chunkParts, records + [RecordOf(part, outputFileIndex)], paths)
      ensures OnlyRecorded(paths, records + [RecordOf(part, outputFileIndex)])
      ensures SameNames(outputFiles, old(outputFiles))
    {
      ghost var paths0 := paths;
      var sourceIndex := EnsureSource(SourcePath(part.decodedSource), 0);
      RecordsExtended(paths0, records, paths, RecordOf(part, outputFileIndex));
      var chunkPart := ChunkPart(sourceIndex, outputFileIndex,
                                 (part.realSize + part.unaccountedSize) % U32_LIMIT, part.compressedSize);
      PartRecorded(chunkParts, records, paths0, paths, chunkPart, RecordOf(part, outputFileIndex));
      StorePart(chunkPart);
    }

    method CollectAsset(asset: Asset, ghost records: seq<Record>)
      requires Valid(0) && Recorded(chunkParts, records, paths) && OnlyRecorded(paths, records)
      requires !Skipped(asset)
      modifies this
      ensures Valid(0)
      ensures Recorded(chunkParts, records + PartRecords(asset.parts, |old(outputFiles)|), paths)
      ensures OnlyRecorded(paths, records + PartRecords(asset.parts, |old(outputFiles)|))
      ensures Names(outputFiles) == old(Names(outputFiles)) + [asset.filename]
    {
      FileAdded(outputFiles, chunkParts, asset.filename);
      var outputFileIndex := AddOutputFile(asset.filename);
      ghost var files0 := outputFiles;
      ghost var all := PartRecords(asset.parts, outputFileIndex);
      assert records + all[..0] == records;
      for k := 0 to |asset.parts|
        invariant Valid(0)
        invariant SameNames(outputFiles, files0)
        invariant Recorded(chunkParts, records + all[..k], paths) && OnlyRecorded(paths, records + all[..k])
      {
        CollectPart(asset.parts[k], outputFileIndex, records + all[..k]);
        assert records + all[..k] + [all[k]] == records + all[..k + 1];
      }
      assert all[..|all|] == all;
    }

    method CollectAssets(assets: seq<Asset>)
      requires Valid(0) && paths == [] && chunkParts == [] && outputFiles == []
      modifies this
      ensures Valid(0)
      ensures Recorded(chunkParts, RecordsOf(assets), paths) && OnlyRecorded(paths, RecordsOf(assets))
      ensures Names(outputFiles) == FileNames(assets)
    {
      for i := 0 to |assets|
        invariant Valid(0)
        invariant Recorded(chunkParts, RecordsOf(assets[..i]), paths) && OnlyRecorded(paths, RecordsOf(assets[..i]))
        invariant Names(outputFiles) == FileNames(assets[..i])
      {
        assert assets[..i + 1][..i] == assets[..i];
        if Skipped(assets[i]) {
          assert RecordsOf(assets[..i]) + [] == RecordsOf(assets[..i]);
        } else {
          CollectAsset(assets[i], RecordsOf(assets[..i]));
        }
      }
      assert assets[..|assets|] == assets;
    }

    // The body of the directory loop for a source whose path is not empty.
    method LinkSource(i: nat)
      requires Valid(i) && i < |paths| && paths[i] != ""
      modifies this`sources, this`sourceIndexMap, this`paths
      ensures Valid(i + 1)
      ensures paths
              == if ParentPath(old(paths)[i]) in old(paths) then old(paths)
                 else old(paths) + [ParentPath(old(paths)[i])]
    {
      assert LinkedAt(sources[i], paths, i, i);
      var path := sources[i].source.path;
      var segment := Segment(path);
      var parentIndex := EnsureSource(ParentPath(path), i);
      IndexedDistinct(paths, sourceIndexMap);
      var linked := LinkedBelow(sources, i, parentIndex, segment);
      LinkKeepsLinked(sources, paths, i, parentIndex, linked);
      LinkKeepsParts(sources, chunkParts, i, parentIndex, segment);
      sources := linked;
    }

    // The state of the directory loop before source `i`: it only adds directories above recorded sources.
    ghost predicate Scanning(i: nat, records: seq<Record>, start: seq<string>)
      reads this
    {
      i <= |paths| == |sources| && Valid(i) && start <= paths && OnlyAncestors(paths, records)
    }

    // One turn of the directory loop.
    method ScanSource(i: nat, ghost records: seq<Record>, ghost start: seq<string>)
      requires Scanning(i, records, start) && i < |paths|
      modifies this`sources, this`sourceIndexMap, this`paths
      ensures Scanning(i + 1, records, start)
    {
      assert LinkedAt(sources[i], paths, i, i);
      if sources[i].source.path != "" {
        ghost var paths0 := paths;
        LinkSource(i);
        ParentKeepsAncestors(paths0, records, i, paths);
      } else {
        RootKeepsLinked(sources, paths, i);
      }
    }

    lemma SourcesWithin(i: nat, records: seq<Record>, start: seq<string>)
      requires Scanning(i, records, start)
      ensures |sources| <= |Prefixes(records)|
    {
      SourcesBounded(paths, sourceIndexMap, records);
    }

    // The directory loop: it appends to the sources it scans.
    method BuildDirectories(ghost records: seq<Record>)
      requires Valid(0) && OnlyAncestors(paths, records)
      modifies this`sources, this`sourceIndexMap, this`paths
      ensures Valid(|paths|)
      ensures old(paths) <= paths && OnlyAncestors(paths, records)
    {
      var i := 0;
      while i < |sources|
        invariant Scanning(i, records, old(paths))
        decreases |Prefixes(records)| - i
      {
        SourcesWithin(i, records, old(paths));
        ScanSource(i, records, old(paths));
        i := i + 1;
      }
      assert i == |paths|;
    }

    // What a reader of the file should see.
    ghost function ViewOf(): View
      reads this
    {
      View(seq(|sources|, i requires 0 <= i < |sources| reads this => sources[i].source),
           chunkParts,
           seq(|sources|, i requires 0 <= i < |sources| reads this => sources[i].childSourceIndices),
           seq(|sources|, i requires 0 <= i < |sources| reads this => sources[i].chunkPartIndices),
           seq(|outputFiles|, i requires 0 <= i < |outputFiles| reads this => outputFiles[i].chunkPartIndices))
    }

    lemma ViewIsTree()
      requires Valid(|paths|)
      ensures IsTree(ViewOf(), paths) && HoldsParts(ViewOf())
    {
      IndexedDistinct(paths, sourceIndexMap);
      assert paths[..|paths|] == paths;
      forall i | 0 <= i < |paths|
        ensures sources[i].childSourceIndices == ChildrenOf(paths, paths[i])
                && Placed(sources[i].source, paths, paths[i])
      {
        assert LinkedAt(sources[i], paths, |paths|, i);
      }
    }

    // None is a panic of add_edges.
    method Build() returns (file: Option<AnalyzeFile>)
      requires Valid(|paths|)
      ensures file.Some? <==> SectionFits(ViewOf())
      ensures file.Some? ==> Shows(file.value, ViewOf())
      ensures file.Some? ==> file.value.header.outputFiles == Names(outputFiles)
      ensures file.Some? ==> file.value.header.sourceRoots == RootsOf(ViewOf().sources)
    {
      ViewIsTree();
      var headerSources := seq(|sources|, i requires 0 <= i < |sources| reads this => sources[i].source);
      var sourceChildren :=
        FromIterator(seq(|sources|, i requires 0 <= i < |sources| reads this => sources[i].childSourceIndices));
      var sourceChunkParts :=
        FromIterator(seq(|sources|, i requires 0 <= i < |sources| reads this => sources[i].chunkPartIndices));
      var outputFileChunkParts :=
        FromIterator(seq(|outputFiles|,
                         i requires 0 <= i < |outputFiles| reads this => outputFiles[i].chunkPartIndices));
      var sourceRoots := CollectRoots(headerSources);
      ghost var v := ViewOf();
      var section, refs := WriteTables(outputFileChunkParts, sourceChunkParts, sourceChildren, v);
      if refs.None? {
        return None;
      }
      var (fileRef, partRef, childRef) := refs.value;
      PartsTableReads(section, fileRef, v.fileParts, chunkParts, BY_OUTPUT_FILE);
      PartsTableReads(section, partRef, v.sourceParts, chunkParts, BY_SOURCE);
      ChildTableReads(section, childRef, v.children, paths);
      return Some(AnalyzeFile(Header(headerSources, chunkParts, Names(outputFiles), fileRef, partRef, childRef,
                                     sourceRoots), section));
    }
  }

  lemma {:induction false} RootsOfMembers(sources: seq<Source>, i: nat)
    ensures i in RootsOf(sources) <==> i < |sources| && sources[i].parent.None?
    ensures Distinct(RootsOf(sources))
    ensures forall a :: 0 <= a < |RootsOf(sources)| ==> RootsOf(sources)[a] < |sources|
  {
    if sources != [] {
      RootsOfMembers(sources[..|sources| - 1], i);
    }
  }

  // The only root that the file names is the source of the empty path.
  lemma SingleRoot(v: View, paths: seq<string>) returns (root: nat)
    requires IsTree(v, paths) && paths != []
    ensures root < |paths| && paths[root] == ""
    ensures RootsOf(v.sources) == [root]
  {
    root := OneRoot(v, paths);
    var roots := RootsOf(v.sources);
    RootsOfMembers(v.sources, root);
    forall a | 0 <= a < |roots|
      ensures roots[a] == root
    {
      RootsOfMembers(v.sources, roots[a]);
      assert roots[a] in roots;
    }
    DistinctBound(roots, {root});
  }

  lemma RecordedAreAncestors(paths: seq<string>, records: seq<Record>)
    requires OnlyRecorded(paths, records)
    ensures OnlyAncestors(paths, records)
  {
  }

  // ---------- analyze_output_assets ----------

  lemma StillRecorded(parts: seq<ChunkPart>, records: seq<Record>, paths: seq<string>, paths': seq<string>)
    requires Recorded(parts, records, paths) && paths <= paths'
    ensures Recorded(parts, records, paths')
  {
  }

  method AnalyzeOutputAssets(assets: seq<Asset>)
    returns (file: Option<AnalyzeFile>, ghost v: View, ghost paths: seq<string>)
    ensures IsTree(v, paths) && HoldsParts(v)
    ensures Recorded(v.chunkParts, RecordsOf(assets), paths)
    ensures OnlyAncestors(paths, RecordsOf(assets))
    ensures file.Some? <==> SectionFits(v)
    ensures file.Some? ==> Shows(file.value, v)
    ensures file.Some? ==> file.value.header.outputFiles == FileNames(assets)
    ensures file.Some? ==> file.value.header.sourceRoots == RootsOf(v.sources)
  {
    var builder := new AnalyzeDataBuilder();
    builder.CollectAssets(assets);
    RecordedAreAncestors(builder.paths, RecordsOf(assets));
    ghost var paths0 := builder.paths;
    builder.BuildDirectories(RecordsOf(assets));
    file := builder.Build();
    builder.ViewIsTree();
    v, paths := builder.ViewOf(), builder.paths;
    StillRecorded(v.chunkParts, RecordsOf(assets), paths0, paths);
  }

  // The sources are the recorded paths and the directories above them, and nothing else.
  lemma SourcesExact(v: View, paths: seq<string>, records: seq<Record>, p: string)
    requires IsTree(v, paths) && Recorded(v.chunkParts, records, paths) && OnlyAncestors(paths, records)
    ensures p in paths <==> exists k :: 0 <= k < |records| && IsAncestor(p, records[k].path)
  {
    if k :| 0 <= k < |records| && IsAncestor(p, records[k].path) {
      assert Matches(v.chunkParts[k], records[k], paths);
      var c := AncestorRegistered(v, paths, p, v.chunkParts[k].sourceIndex);
    }
  }
}
