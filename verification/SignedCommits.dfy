// Replaying local commits as signed commits: scripts/github-utils/signed-commit.js.
//
// A git tree is the map from the full paths of its files and submodules to their entries. The
// tree endpoint lays changed entries, and deletions, over a base tree.
module SignedCommits {
  import opened Wrappers
  import opened GitOutput

  datatype EntryKind = Blob | Submodule | Subtree

  datatype Entry = Entry(mode: string, kind: EntryKind, sha: string)

  type Tree = map<string, Entry>

  datatype Commit = Commit(tree: Tree, parents: seq<string>, message: string)

  // What the object store knows: the contents of files by id, the ids of directories, what is
  // printed for a directory, and the hash that names an uploaded blob.
  datatype Objects = Objects(contentOf: string -> string, directoryId: (Tree, string) -> string,
                             listingOf: (Tree, string) -> string, hash: string -> string)

  const DIRECTORY_MODE := "040000"

  predicate IsDirectory(t: Tree, path: string) {
    exists q :: q in t && path + "/" <= q
  }

  // Files and submodules only, none of them below another, and files named by their contents.
  ghost predicate WellFormed(o: Objects, t: Tree) {
    && ArePaths(t.Keys)
    && (forall p :: p in t ==> t[p].kind != Subtree)
    && (forall p :: p in t ==> !IsDirectory(t, p))
    && (forall p :: p in t && t[p].kind == Blob ==> o.hash(o.contentOf(t[p].sha)) == t[p].sha)
  }

  function Lookup(t: Tree, path: string): Option<Entry> {
    if path in t then Some(t[path]) else None
  }

  function ChangedFiles(base: Tree, head: Tree): set<string> {
    set p | p in base.Keys + head.Keys && Lookup(base, p) != Lookup(head, p)
  }

  // diff-tree -r --name-only, as it is parsed.
  function GetChangedFiles(base: Tree, head: Tree): seq<string> {
    Parsed(ChangedFiles(base, head))
  }

  function Members(paths: seq<string>): set<string> {
    set p | p in paths
  }

  // ls-tree of one path; a directory is listed too.
  function GetTreeEntry(o: Objects, t: Tree, path: string): Option<Entry> {
    if path in t then Some(t[path])
    else if IsDirectory(t, path) then Some(Entry(DIRECTORY_MODE, Subtree, o.directoryId(t, path)))
    else None
  }

  // git show of a path: the content of a file, the listing of a directory.
  function Show(o: Objects, t: Tree, path: string, e: Entry): string {
    if e.kind == Subtree then o.listingOf(t, path) else o.contentOf(e.sha)
  }

  // The entry sent for a changed path: a deletion, a submodule's commit, or an uploaded blob.
  function NewEntry(o: Objects, local: Tree, path: string): Option<Entry> {
    var treeEntry := GetTreeEntry(o, local, path);
    if treeEntry.None? then None
    else if treeEntry.value.kind == Submodule then treeEntry
    else Some(treeEntry.value.(sha := o.hash(Show(o, local, path, treeEntry.value))))
  }

  function NewEntries(o: Objects, changed: set<string>, local: Tree): map<string, Option<Entry>> {
    map p | p in changed :: NewEntry(o, local, p)
  }

  // The tree endpoint.
  function Overlay(base: Tree, entries: map<string, Option<Entry>>): Tree {
    map p | p in base.Keys + entries.Keys && (p in entries ==> entries[p].Some?) ::
      if p in entries then entries[p].value else base[p]
  }

  datatype Error = NoFileChanges | NothingToReplay | Unsigned

  datatype Result<+T> = Ok(value: T) | Err(error: Error)

  function CreateTreeFromLocalCommit(o: Objects, diffBase: Tree, baseTree: Tree, local: Tree,
                                     allowEmpty: bool): Result<Tree> {
    var changedFiles := GetChangedFiles(diffBase, local);
    if changedFiles == [] then
      if allowEmpty then Ok(baseTree) else Err(NoFileChanges)
    else Ok(Overlay(baseTree, NewEntries(o, Members(changedFiles), local)))
  }

  // ---------- When the created tree is the local tree ----------

  // Some path that is a file in `base` is a directory in `local`.
  ghost predicate FileBecomesDirectory(base: Tree, local: Tree) {
    exists p :: p in base && IsDirectory(local, p)
  }

  ghost predicate AgreeOutside(changed: set<string>, a: Tree, b: Tree) {
    forall p :: p !in changed ==> Lookup(a, p) == Lookup(b, p)
  }

  lemma OverlayLookup(base: Tree, entries: map<string, Option<Entry>>, p: string)
    ensures Lookup(Overlay(base, entries), p) == if p in entries then entries[p] else Lookup(base, p)
  {
  }

  lemma TreesEqual(a: Tree, b: Tree)
    requires forall p :: Lookup(a, p) == Lookup(b, p)
    ensures a == b
  {
    forall p
      ensures p in a <==> p in b
      ensures p in a ==> a[p] == b[p]
    {
      assert Lookup(a, p) == Lookup(b, p);
    }
    assert a.Keys == b.Keys;
  }

  lemma NewEntryIsLookup(o: Objects, local: Tree, p: string)
    requires WellFormed(o, local)
    ensures NewEntry(o, local, p) == Lookup(local, p) <==> !IsDirectory(local, p)
  {
  }

  // The created tree is the local tree exactly when the base tree agrees with it on the unchanged
  // paths and no changed path is a directory of the local tree.
  lemma CreatedTreeExact(o: Objects, changed: set<string>, baseTree: Tree, local: Tree)
    requires WellFormed(o, local)
    ensures Overlay(baseTree, NewEntries(o, changed, local)) == local
            <==> AgreeOutside(changed, baseTree, local) && forall p :: p in changed ==> !IsDirectory(local, p)
  {
    var created := Overlay(baseTree, NewEntries(o, changed, local));
    forall p
      ensures Lookup(created, p) == if p in changed then NewEntry(o, local, p) else Lookup(baseTree, p)
    {
      OverlayLookup(baseTree, NewEntries(o, changed, local), p);
    }
    forall p
      ensures NewEntry(o, local, p) == Lookup(local, p) <==> !IsDirectory(local, p)
    {
      NewEntryIsLookup(o, local, p);
    }
    if AgreeOutside(changed, baseTree, local) && forall p :: p in changed ==> !IsDirectory(local, p) {
      TreesEqual(created, local);
    }
  }

  lemma NoChangesIsEqual(a: Tree, b: Tree)
    ensures ChangedFiles(a, b) == {} <==> a == b
  {
    if ChangedFiles(a, b) == {} {
      forall p
        ensures Lookup(a, p) == Lookup(b, p)
      {
        assert p !in ChangedFiles(a, b);
      }
      TreesEqual(a, b);
    }
  }

  // No file becomes a directory, and no white space stands in front of the first changed path.
  ghost predicate Replayable(base: Tree, local: Tree) {
    !FileBecomesDirectory(base, local) && !FirstIsBlank(ChangedFiles(base, local))
  }

  // Nothing has changed, or only a file whose path is all white space.
  ghost predicate NothingShows(base: Tree, local: Tree) {
    base == local || exists p :: ChangedFiles(base, local) == {p} && TrimStart(p) == ""
  }

  lemma ChangedArePaths(base: Tree, local: Tree)
    requires ArePaths(base.Keys) && ArePaths(local.Keys)
    ensures ArePaths(ChangedFiles(base, local))
  {
  }

  lemma NothingListed(base: Tree, local: Tree)
    requires ArePaths(base.Keys) && ArePaths(local.Keys)
    ensures GetChangedFiles(base, local) == [] <==> NothingShows(base, local)
  {
    var changed := ChangedFiles(base, local);
    ChangedArePaths(base, local);
    NoChangesIsEqual(base, local);
    ParsedNothing(changed);
    if p :| changed == {p} && TrimStart(p) == "" {
      assert Least(changed) == p;
    }
  }

  lemma BlankShowsNothing(changed: set<string>)
    requires ArePaths(changed) && exists p :: changed == {p} && TrimStart(p) == ""
    ensures FirstIsBlank(changed)
  {
    var p :| changed == {p} && TrimStart(p) == "";
    TrimStartShortens(p);
    assert p in changed && Least(changed) == p;
  }

  // If all changed paths are listed, only a file that becomes a directory is in the way.
  lemma WholeListing(o: Objects, parent: Tree, local: Tree)
    requires WellFormed(o, local)
    ensures AgreeOutside(ChangedFiles(parent, local), parent, local)
    ensures (forall p :: p in ChangedFiles(parent, local) ==> !IsDirectory(local, p))
            <==> !FileBecomesDirectory(parent, local)
  {
    if FileBecomesDirectory(parent, local) {
      var p :| p in parent && IsDirectory(local, p);
      assert p in ChangedFiles(parent, local);
    }
    if p :| p in ChangedFiles(parent, local) && IsDirectory(local, p) {
      assert p in parent;
    }
  }

  // On top of the commit's own parent tree: it fails exactly if nothing shows, unless that is
  // allowed, and it reproduces the local tree exactly if the step is replayable.
  lemma ReplayedTreeExact(o: Objects, parent: Tree, local: Tree, allowEmpty: bool)
    requires WellFormed(o, parent) && WellFormed(o, local)
    ensures var r := CreateTreeFromLocalCommit(o, parent, parent, local, allowEmpty);
            && (r.Err? <==> NothingShows(parent, local) && !allowEmpty)
            && (r.Ok? ==> (r.value == local <==> Replayable(parent, local)))
  {
    var changed, listed := ChangedFiles(parent, local), Members(GetChangedFiles(parent, local));
    ChangedArePaths(parent, local);
    NoChangesIsEqual(parent, local);
    NothingListed(parent, local);
    ParsedExactly(changed);
    if GetChangedFiles(parent, local) != [] {
      CreatedTreeExact(o, listed, parent, local);
      if FirstIsBlank(changed) {
        assert Least(changed) in changed && Least(changed) !in listed;
      } else {
        assert listed == changed;
        WholeListing(o, parent, local);
      }
    } else if parent != local {
      BlankShowsNothing(changed);
    }
  }

  // ---------- Commits that are not reproduced ----------

  // Two paths without blanks in front are listed as they are.
  lemma ListingOfTwo(p: string, q: string)
    requires IsPath(p) && IsPath(q) && !IsWhite(p[0]) && !IsWhite(q[0])
    ensures Members(Parsed({p, q})) == {p, q} && Parsed({p, q}) != []
  {
    ParsedExactly({p, q});
    assert Least({p, q}) in {p, q};
    assert p in Parsed({p, q});
  }

  // The listing of a single path.
  lemma ListingOfOne(p: string)
    requires IsPath(p)
    ensures Members(Parsed({p})) == if TrimStart(p) == "" then {} else {TrimStart(p)}
    ensures Parsed({p}) == [] <==> TrimStart(p) == ""
  {
    assert Least({p}) == p;
    ParsedNothing({p});
    forall q
      ensures q in Parsed({p}) <==> q != "" && q == TrimStart(p)
    {
      ParsedMembers({p}, q);
    }
  }

  lemma FileToDirectoryChanges(e: Entry)
    ensures ChangedFiles(map["a" := e], map["a/b" := e]) == {"a", "a/b"}
    ensures IsDirectory(map["a/b" := e], "a")
  {
    var parent: Tree, local: Tree := map["a" := e], map["a/b" := e];
    assert "a" in parent && "a" !in local && "a/b" in local && "a/b" !in parent;
    assert "a" + "/" <= "a/b";
  }

  lemma OverlayOfTwo(base: Tree, entries: map<string, Option<Entry>>, p: string, q: string, x: Entry, y: Entry)
    requires base.Keys <= {p, q} == entries.Keys && entries[p] == Some(x) && entries[q] == Some(y)
    ensures Overlay(base, entries) == if p == q then map[p := y] else map[p := x, q := y]
  {
  }

  // Two changed paths, both with new entries.
  lemma TwoReplaced(o: Objects, parent: Tree, local: Tree, p: string, q: string, x: Entry, y: Entry)
    requires ChangedFiles(parent, local) == {p, q} && parent.Keys <= {p, q}
    requires IsPath(p) && IsPath(q) && !IsWhite(p[0]) && !IsWhite(q[0])
    requires p != q && NewEntry(o, local, p) == Some(x) && NewEntry(o, local, q) == Some(y)
    ensures CreateTreeFromLocalCommit(o, parent, parent, local, false) == Ok(map[p := x, q := y])
  {
    ListingOfTwo(p, q);
    OverlayOfTwo(parent, NewEntries(o, {p, q}, local), p, q, x, y);
  }

  // One changed path that is read as another one, which is nowhere.
  lemma OneDropped(o: Objects, parent: Tree, local: Tree, p: string)
    requires ChangedFiles(parent, local) == {p} && IsPath(p) && TrimStart(p) != ""
    requires TrimStart(p) !in parent && NewEntry(o, local, TrimStart(p)) == None
    ensures CreateTreeFromLocalCommit(o, parent, parent, local, false) == Ok(parent)
  {
    ListingOfOne(p);
    var created := Overlay(parent, NewEntries(o, {TrimStart(p)}, local));
    forall r
      ensures Lookup(created, r) == Lookup(parent, r)
    {
      OverlayLookup(parent, NewEntries(o, {TrimStart(p)}, local), r);
    }
    TreesEqual(created, parent);
  }

  lemma FileToDirectoryEntries(o: Objects, e: Entry)
    requires WellFormed(o, map["a/b" := e])
    ensures var local: Tree := map["a/b" := e];
            && NewEntry(o, local, "a") == Some(Entry("040000", Subtree, o.hash(o.listingOf(local, "a"))))
            && NewEntry(o, local, "a/b") == Some(e)
  {
    FileToDirectoryChanges(e);
    assert "a" != "a/b";
    NewEntryIsLookup(o, map["a/b" := e], "a/b");
  }

  // The smallest failure: the file "a" becomes the directory of "a/b". Its listing is uploaded, and
  // the created tree has a second "a", a directory entry that names the uploaded blob.
  lemma FileToDirectoryIsLost(o: Objects, e: Entry)
    requires WellFormed(o, map["a/b" := e])
    ensures CreateTreeFromLocalCommit(o, map["a" := e], map["a" := e], map["a/b" := e], false)
            == Ok(map["a" := Entry("040000", Subtree, o.hash(o.listingOf(map["a/b" := e], "a"))), "a/b" := e])
  {
    FileToDirectoryChanges(e);
    FileToDirectoryEntries(o, e);
    TwoReplaced(o, map["a" := e], map["a/b" := e], "a", "a/b",
                Entry(DIRECTORY_MODE, Subtree, o.hash(o.listingOf(map["a/b" := e], "a"))), e);
  }

  lemma BlankPathEntry(o: Objects, e: Entry, f: Entry)
    ensures ChangedFiles(map["b" := e], map["b" := e, " a" := f]) == {" a"}
    ensures NewEntry(o, map["b" := e, " a" := f], "a") == None
  {
    var parent: Tree, local: Tree := map["b" := e], map["b" := e, " a" := f];
    assert " a" in local && " a" !in parent && "b" in local && "a" !in local;
    assert ("a" + "/")[0] != "b"[0] && ("a" + "/")[0] != " a"[0];
  }

  // A file " a" that is added is lost: the listing is read as "a", which is not there.
  lemma BlankPathIsLost(o: Objects, e: Entry, f: Entry)
    ensures CreateTreeFromLocalCommit(o, map["b" := e], map["b" := e], map["b" := e, " a" := f], false)
            == Ok(map["b" := e])
  {
    BlankPathEntry(o, e, f);
    assert " a"[1..] == "a" && TrimStart(" a") == "a" && "a" != "b";
    OneDropped(o, map["b" := e], map["b" := e, " a" := f], " a");
  }

  // And a commit that adds nothing but the file " " is taken for one without changes.
  lemma BlankPathIsNoChange(o: Objects, f: Entry)
    ensures CreateTreeFromLocalCommit(o, map[], map[], map[" " := f], false) == Err(NoFileChanges)
  {
    var local: Tree := map[" " := f];
    assert ChangedFiles(map[], local) == {" "};
    assert " "[1..] == "" && TrimStart(" ") == "";
    ListingOfOne(" ");
  }

  // ---------- Replay ----------

  // The commit endpoint's answer.
  datatype Reply = Reply(sha: string, verified: bool)

  // What a replay works with: the local commits by name, the objects, and the commit endpoint.
  datatype Session = Session(local: map<string, Commit>, o: Objects, create: Commit -> Reply, allowEmpty: bool)

  datatype Signed = Signed(sha: string, commit: Commit)

  // Every commit of the list is known, and so is its first parent.
  ghost predicate Known(s: Session, commits: seq<string>) {
    forall c :: c in commits ==> c in s.local && s.local[c].parents != [] && s.local[c].parents[0] in s.local
  }

  function ParentOf(s: Session, c: string): Commit
    requires c in s.local && s.local[c].parents != [] && s.local[c].parents[0] in s.local
  {
    s.local[s.local[c].parents[0]]
  }

  // One turn of the replay loop, on top of the signed commit `parentSha` with tree `parentTree`.
  function ReplayOne(s: Session, c: string, parentSha: string, parentTree: Tree): Result<Signed>
    requires Known(s, [c])
  {
    assert c in [c];
    var tree := CreateTreeFromLocalCommit(s.o, ParentOf(s, c).tree, parentTree, s.local[c].tree, s.allowEmpty);
    if tree.Err? then Err(tree.error)
    else
      var commit := Commit(tree.value, [parentSha], Trim(s.local[c].message));
      if s.create(commit).verified then Ok(Signed(s.create(commit).sha, commit)) else Err(Unsigned)
  }

  function TipSha(signed: seq<Signed>, baseSha: string): string {
    if signed == [] then baseSha else signed[|signed| - 1].sha
  }

  function TipTree(signed: seq<Signed>, baseTree: Tree): Tree {
    if signed == [] then baseTree else signed[|signed| - 1].commit.tree
  }

  // The signed commits after replaying the list on top of `baseSha`.
  function Replay(s: Session, commits: seq<string>, baseSha: string, baseTree: Tree): Result<seq<Signed>>
    requires Known(s, commits)
  {
    if commits == [] then Ok([])
    else
      var c := commits[|commits| - 1];
      assert forall d :: d in commits[..|commits| - 1] ==> d in commits;
      var before := Replay(s, commits[..|commits| - 1], baseSha, baseTree);
      if before.Err? then before
      else
        var next := ReplayOne(s, c, TipSha(before.value, baseSha), TipTree(before.value, baseTree));
        if next.Err? then Err(next.error) else Ok(before.value + [next.value])
  }

  // A failed prefix fails the whole replay, with the same error.
  lemma {:induction false} ReplayFailsEarly(s: Session, commits: seq<string>, k: nat, baseSha: string, baseTree: Tree)
    requires Known(s, commits) && k <= |commits|
    requires Known(s, commits[..k]) && Replay(s, commits[..k], baseSha, baseTree).Err?
    ensures Replay(s, commits, baseSha, baseTree) == Replay(s, commits[..k], baseSha, baseTree)
    decreases |commits|
  {
    if k == |commits| {
      assert commits[..k] == commits;
    } else {
      var init := commits[..|commits| - 1];
      assert forall d :: d in init ==> d in commits;
      assert init[..k] == commits[..k];
      ReplayFailsEarly(s, init, k, baseSha, baseTree);
    }
  }

  lemma ReplayNext(s: Session, commits: seq<string>, k: nat, baseSha: string, baseTree: Tree)
    requires Known(s, commits) && k < |commits|
    ensures Known(s, commits[..k]) && Known(s, commits[..k + 1]) && Known(s, [commits[k]])
    ensures var before := Replay(s, commits[..k], baseSha, baseTree);
            before.Ok? ==>
              var next := ReplayOne(s, commits[k], TipSha(before.value, baseSha), TipTree(before.value, baseTree));
              Replay(s, commits[..k + 1], baseSha, baseTree)
              == if next.Err? then Err(next.error) else Ok(before.value + [next.value])
  {
    assert forall d :: d in commits[..k + 1] ==> d in commits;
    assert forall d :: d in commits[..k] ==> d in commits;
    assert commits[k] in commits && commits[..k + 1][..k] == commits[..k];
  }

  // The loop returns the name of the last signed commit.
  method ReplayLocalCommitsAsSigned(s: Session, fromBaseSha: string, localCommits: seq<string>)
    returns (r: Result<string>)
    requires Known(s, localCommits) && fromBaseSha in s.local
    ensures var replayed := Replay(s, localCommits, fromBaseSha, s.local[fromBaseSha].tree);
            if localCommits == [] then r == Err(NothingToReplay)
            else if replayed.Err? then r == Err(replayed.error)
            else r == Ok(TipSha(replayed.value, fromBaseSha))
  {
    if localCommits == [] {
      return Err(NothingToReplay);
    }
    var parentSha, parentTree := fromBaseSha, s.local[fromBaseSha].tree;
    ghost var baseTree, chain: seq<Signed> := parentTree, [];
    for k := 0 to |localCommits|
      invariant Known(s, localCommits[..k])
      invariant Replay(s, localCommits[..k], fromBaseSha, baseTree) == Ok(chain)
      invariant parentSha == TipSha(chain, fromBaseSha) && parentTree == TipTree(chain, baseTree)
    {
      var c := localCommits[k];
      ReplayNext(s, localCommits, k, fromBaseSha, baseTree);
      var next := ReplayOne(s, c, parentSha, parentTree);
      if next.Err? {
        ReplayFailsEarly(s, localCommits, k + 1, fromBaseSha, baseTree);
        return Err(next.error);
      }
      chain := chain + [next.value];
      parentSha, parentTree := next.value.sha, next.value.commit.tree;
    }
    assert localCommits[..|localCommits|] == localCommits;
    r := Ok(parentSha);
  }

  // ---------- What a replay preserves ----------

  ghost predicate InLine(s: Session, baseSha: string, commits: seq<string>, k: nat)
    requires k < |commits|
  {
    && commits[k] in s.local
    && s.local[commits[k]].parents == [if k == 0 then baseSha else commits[k - 1]]
    && WellFormed(s.o, s.local[commits[k]].tree)
  }

  // A linear history: each commit's parent is the one before it, the first one's is the base.
  ghost predicate Linear(s: Session, baseSha: string, commits: seq<string>) {
    && Known(s, commits) && baseSha in s.local
    && (forall k :: 0 <= k < |commits| ==> InLine(s, baseSha, commits, k))
    && WellFormed(s.o, s.local[baseSha].tree)
  }

  function TreeAt(s: Session, baseSha: string, commits: seq<string>, k: nat): Tree
    requires Known(s, commits) && baseSha in s.local && k <= |commits|
  {
    if k == 0 then s.local[baseSha].tree else s.local[commits[k - 1]].tree
  }

  // Every step of the history is replayable.
  ghost predicate StepsReplayable(s: Session, baseSha: string, commits: seq<string>)
    requires Known(s, commits) && baseSha in s.local
  {
    forall k :: 0 <= k < |commits| ==> Replayable(TreeAt(s, baseSha, commits, k), TreeAt(s, baseSha, commits, k + 1))
  }

  // The signed commits carry the local trees and messages and form a chain rooted at the base.
  ghost predicate SameTrees(s: Session, commits: seq<string>, signed: seq<Signed>)
    requires Known(s, commits)
  {
    |signed| == |commits| && forall k :: 0 <= k < |commits| ==> signed[k].commit.tree == s.local[commits[k]].tree
  }

  ghost predicate SignedLink(s: Session, baseSha: string, c: string, signed: seq<Signed>, k: nat)
    requires k < |signed| && c in s.local
  {
    && signed[k].commit.parents == [if k == 0 then baseSha else signed[k - 1].sha]
    && signed[k].commit.message == Trim(s.local[c].message)
    && s.create(signed[k].commit) == Reply(signed[k].sha, true)
  }

  ghost predicate IsSignedChain(s: Session, baseSha: string, commits: seq<string>, signed: seq<Signed>)
    requires Known(s, commits)
  {
    && |signed| == |commits|
    && forall k :: 0 <= k < |commits| ==> SignedLink(s, baseSha, commits[k], signed, k)
  }

  lemma LinearPrefix(s: Session, baseSha: string, commits: seq<string>)
    requires Linear(s, baseSha, commits) && commits != []
    ensures Linear(s, baseSha, commits[..|commits| - 1])
  {
    var init := commits[..|commits| - 1];
    assert forall d :: d in init ==> d in commits;
    forall k | 0 <= k < |init|
      ensures InLine(s, baseSha, init, k)
    {
      assert InLine(s, baseSha, commits, k);
    }
  }

  lemma ChainSnoc(s: Session, baseSha: string, commits: seq<string>, signed: seq<Signed>, next: Signed)
    requires Known(s, commits) && commits != [] && Known(s, commits[..|commits| - 1])
    requires IsSignedChain(s, baseSha, commits[..|commits| - 1], signed)
    requires next.commit.parents == [TipSha(signed, baseSha)]
             && next.commit.message == Trim(s.local[commits[|commits| - 1]].message)
    requires s.create(next.commit) == Reply(next.sha, true)
    ensures IsSignedChain(s, baseSha, commits, signed + [next])
  {
    var n, all := |signed|, signed + [next];
    forall k | 0 <= k < |commits|
      ensures SignedLink(s, baseSha, commits[k], all, k)
    {
      if k < n {
        assert SignedLink(s, baseSha, commits[..n][k], signed, k);
        assert all[..k] == signed[..k];
      } else {
        assert all[..k] == signed;
      }
    }
  }

  // Whatever the trees, a replay yields a signed chain of the same length and messages.
  lemma {:induction false} ReplayMakesChain(s: Session, baseSha: string, baseTree: Tree, commits: seq<string>)
    requires Known(s, commits)
    ensures var r := Replay(s, commits, baseSha, baseTree);
            r.Ok? ==> IsSignedChain(s, baseSha, commits, r.value)
  {
    if commits != [] {
      var n := |commits| - 1;
      assert commits[..n + 1] == commits;
      ReplayNext(s, commits, n, baseSha, baseTree);
      ReplayMakesChain(s, baseSha, baseTree, commits[..n]);
      var before := Replay(s, commits[..n], baseSha, baseTree);
      if before.Ok? {
        var next := ReplayOne(s, commits[n], TipSha(before.value, baseSha), TipTree(before.value, baseTree));
        if next.Ok? { ChainSnoc(s, baseSha, commits, before.value, next.value); }
      }
    }
  }

  lemma StepsSnoc(s: Session, baseSha: string, commits: seq<string>, n: nat)
    requires Linear(s, baseSha, commits) && |commits| == n + 1 && Known(s, commits[..n])
    ensures StepsReplayable(s, baseSha, commits)
            <==> StepsReplayable(s, baseSha, commits[..n])
                 && Replayable(TreeAt(s, baseSha, commits, n), TreeAt(s, baseSha, commits, n + 1))
  {
    assert forall k :: 0 <= k <= n ==> TreeAt(s, baseSha, commits[..n], k) == TreeAt(s, baseSha, commits, k);
  }

  lemma SameTreesSnoc(s: Session, commits: seq<string>, n: nat, signed: seq<Signed>, next: Signed)
    requires Known(s, commits) && |commits| == n + 1 && Known(s, commits[..n]) && |signed| == n
    ensures SameTrees(s, commits, signed + [next])
            <==> SameTrees(s, commits[..n], signed) && next.commit.tree == s.local[commits[n]].tree
  {
  }

  // Step n on top of the local tree of step n - 1.
  lemma NextTree(s: Session, baseSha: string, commits: seq<string>, n: nat, parentSha: string)
    requires Linear(s, baseSha, commits) && |commits| == n + 1 && Known(s, [commits[n]])
    ensures var next := ReplayOne(s, commits[n], parentSha, TreeAt(s, baseSha, commits, n));
            next.Ok? ==>
              (next.value.commit.tree == s.local[commits[n]].tree
               <==> Replayable(TreeAt(s, baseSha, commits, n), TreeAt(s, baseSha, commits, n + 1)))
  {
    assert InLine(s, baseSha, commits, n);
    assert n > 0 ==> InLine(s, baseSha, commits, n - 1);
    assert commits[n] in [commits[n]];
    assert ParentOf(s, commits[n]).tree == TreeAt(s, baseSha, commits, n);
    ReplayedTreeExact(s.o, TreeAt(s, baseSha, commits, n), TreeAt(s, baseSha, commits, n + 1), s.allowEmpty);
  }

  lemma TipOfSame(s: Session, baseSha: string, commits: seq<string>, n: nat, signed: seq<Signed>)
    requires Known(s, commits) && baseSha in s.local && |commits| == n + 1 && Known(s, commits[..n]) && |signed| == n
    ensures SameTrees(s, commits[..n], signed)
            ==> TipTree(signed, s.local[baseSha].tree) == TreeAt(s, baseSha, commits, n)
  {
  }

  lemma StepKeepsTrees(s: Session, baseSha: string, commits: seq<string>, n: nat, signed: seq<Signed>)
    requires Linear(s, baseSha, commits) && |commits| == n + 1
    requires Known(s, commits[..n]) && Known(s, [commits[n]]) && |signed| == n
    requires SameTrees(s, commits[..n], signed) <==> StepsReplayable(s, baseSha, commits[..n])
    ensures var next := ReplayOne(s, commits[n], TipSha(signed, baseSha), TipTree(signed, s.local[baseSha].tree));
            next.Ok? ==> (SameTrees(s, commits, signed + [next.value]) <==> StepsReplayable(s, baseSha, commits))
  {
    var next := ReplayOne(s, commits[n], TipSha(signed, baseSha), TipTree(signed, s.local[baseSha].tree));
    StepsSnoc(s, baseSha, commits, n);
    TipOfSame(s, baseSha, commits, n, signed);
    NextTree(s, baseSha, commits, n, TipSha(signed, baseSha));
    if next.Ok? {
      SameTreesSnoc(s, commits, n, signed, next.value);
    }
  }

  lemma {:induction false} ReplayLength(s: Session, commits: seq<string>, baseSha: string, baseTree: Tree)
    requires Known(s, commits)
    ensures var r := Replay(s, commits, baseSha, baseTree); r.Ok? ==> |r.value| == |commits|
  {
    if commits != [] {
      assert forall d :: d in commits[..|commits| - 1] ==> d in commits;
      ReplayLength(s, commits[..|commits| - 1], baseSha, baseTree);
    }
  }

  // A property of the signed commits that every step keeps.
  ghost predicate TreesKept(s: Session, baseSha: string, commits: seq<string>)
    requires Known(s, commits) && baseSha in s.local
  {
    var r := Replay(s, commits, baseSha, s.local[baseSha].tree);
    r.Ok? ==> (SameTrees(s, commits, r.value) <==> StepsReplayable(s, baseSha, commits))
  }

  lemma KeptOneMore(s: Session, baseSha: string, commits: seq<string>, n: nat)
    requires Linear(s, baseSha, commits) && |commits| == n + 1
    requires Known(s, commits[..n]) && TreesKept(s, baseSha, commits[..n])
    ensures TreesKept(s, baseSha, commits)
  {
    var baseTree := s.local[baseSha].tree;
    var before := Replay(s, commits[..n], baseSha, baseTree);
    ReplayLength(s, commits[..n], baseSha, baseTree);
    assert commits[n] in commits;
    if before.Ok? {
      StepKeepsTrees(s, baseSha, commits, n, before.value);
    }
  }

  // The signed trees are the local trees exactly when every step is replayable.
  lemma {:induction false} ReplayKeepsTrees(s: Session, baseSha: string, commits: seq<string>)
    requires Linear(s, baseSha, commits)
    ensures TreesKept(s, baseSha, commits)
  {
    if commits != [] {
      LinearPrefix(s, baseSha, commits);
      ReplayKeepsTrees(s, baseSha, commits[..|commits| - 1]);
      KeptOneMore(s, baseSha, commits, |commits| - 1);
    }
  }

  // The commit shows some change.
  ghost predicate ShowsChanges(s: Session, c: string) {
    && c in s.local && s.local[c].parents != [] && s.local[c].parents[0] in s.local
    && !NothingShows(ParentOf(s, c).tree, s.local[c].tree)
  }

  ghost predicate HasPaths(s: Session) {
    forall c :: c in s.local ==> ArePaths(s.local[c].tree.Keys)
  }

  lemma StepSucceedsExactly(s: Session, c: string, parentSha: string, parentTree: Tree)
    requires HasPaths(s) && Known(s, [c]) && forall commit :: s.create(commit).verified
    ensures ReplayOne(s, c, parentSha, parentTree).Ok? <==> s.allowEmpty || ShowsChanges(s, c)
  {
    assert c in [c];
    NothingListed(ParentOf(s, c).tree, s.local[c].tree);
  }

  // If every created commit is verified, a replay fails exactly on a commit that shows no change,
  // and then only if empty commits are not allowed.
  lemma {:induction false} ReplaySucceedsExactly(s: Session, baseSha: string, baseTree: Tree, commits: seq<string>)
    requires HasPaths(s) && Known(s, commits) && forall commit :: s.create(commit).verified
    ensures Replay(s, commits, baseSha, baseTree).Ok?
            <==> s.allowEmpty || forall c :: c in commits ==> ShowsChanges(s, c)
  {
    if commits != [] {
      var init, last := commits[..|commits| - 1], commits[|commits| - 1];
      assert forall d :: d in commits <==> d in init || d == last;
      ReplaySucceedsExactly(s, baseSha, baseTree, init);
      var before := Replay(s, init, baseSha, baseTree);
      if before.Ok? {
        StepSucceedsExactly(s, last, TipSha(before.value, baseSha), TipTree(before.value, baseTree));
      }
    }
  }

  // A message goes through exactly when no white space stands at either end of it.
  lemma MessageKeptExactly(s: Session, baseSha: string, baseTree: Tree, commits: seq<string>, k: nat)
    requires Known(s, commits) && Replay(s, commits, baseSha, baseTree).Ok? && k < |commits|
    ensures var signed := Replay(s, commits, baseSha, baseTree).value; var message := s.local[commits[k]].message;
            && k < |signed|
            && (signed[k].commit.message == message
                <==> message == "" || (!IsWhite(message[0]) && !IsWhite(message[|message| - 1])))
  {
    var signed := Replay(s, commits, baseSha, baseTree).value;
    ReplayMakesChain(s, baseSha, baseTree, commits);
    assert SignedLink(s, baseSha, commits[k], signed, k);
    TrimKeepsExactly(s.local[commits[k]].message);
  }

  // ---------- One signed commit for the whole range ----------

  function CreateSignedCommit(s: Session, baseSha: string, localSha: string, message: string): Result<Signed>
    requires baseSha in s.local && localSha in s.local
  {
    var tree := CreateTreeFromLocalCommit(s.o, s.local[baseSha].tree, s.local[baseSha].tree, s.local[localSha].tree,
                                          s.allowEmpty);
    if tree.Err? then Err(tree.error)
    else
      var commit := Commit(tree.value, [baseSha], message);
      if s.create(commit).verified then Ok(Signed(s.create(commit).sha, commit)) else Err(Unsigned)
  }

  // If every step is replayable, the replayed chain ends in the tip's own tree, and that is the tree
  // of the single signed commit from the base to the tip exactly when the range as a whole is replayable.
  lemma ReplayEndsLikeSingleCommit(s: Session, baseSha: string, commits: seq<string>, message: string)
    requires Linear(s, baseSha, commits) && commits != [] && StepsReplayable(s, baseSha, commits)
    requires commits[|commits| - 1] in s.local
    ensures var base, tip := s.local[baseSha].tree, s.local[commits[|commits| - 1]].tree;
            var r := Replay(s, commits, baseSha, base);
            var single := CreateSignedCommit(s, baseSha, commits[|commits| - 1], message);
            r.Ok? && single.Ok? ==>
              TipTree(r.value, base) == tip && (single.value.commit.tree == tip <==> Replayable(base, tip))
  {
    var tip := commits[|commits| - 1];
    assert tip in commits && InLine(s, baseSha, commits, |commits| - 1);
    ReplayKeepsTrees(s, baseSha, commits);
    ReplayedTreeExact(s.o, s.local[baseSha].tree, s.local[tip].tree, s.allowEmpty);
  }
}
