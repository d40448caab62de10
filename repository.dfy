/**
 * The repository engine (MyGitRepository) as a state machine over an
 * abstract store: the commit graph and the current node, the repository
 * metadata (HEAD id and branch registry), the staging index, the blob store
 * (a set of hashes), the persisted commit records (a set of ids) and the
 * working tree (a map from path to content hash).
 */
module Repo {
  import opened Types
  import opened Commits
  import opened History
  import opened Revisions
  import Staging

  /** What `status` reports. */
  datatype StatusReport =
    | Detached
    | Report(branch: string,
             stagedNew: set<Path>, stagedModified: set<Path>,
             untrackedNew: set<Path>, untrackedModified: set<Path>, untrackedRemoved: set<Path>,
             upToDate: bool)

  /** The link `init` gives a reloaded commit: its parent's node if that record was reloaded, else null. */
  function ReloadedLink(stored: map<CommitId, Commit>, c: Commit): Option<CommitId>
  {
    if c.parent.Some? && c.parent.value in stored then c.parent else None
  }

  /**
   * The graph `init` rebuilds from the persisted commits: one node per
   * record, then every node linked to the node of its recorded parent.
   */
  method Relink(stored: map<CommitId, Commit>) returns (g: Graph)
    ensures g.Keys == stored.Keys
    ensures forall id :: id in g ==> g[id].commit == stored[id]
    ensures forall id :: id in g ==>
      (g[id].parent.Some? <==> stored[id].parent.Some? && stored[id].parent.value in stored)
    ensures forall id :: id in g && g[id].parent.Some? ==> g[id].parent == stored[id].parent
  {
    g := map[];
    var rest := stored.Keys;
    while rest != {}
      invariant rest <= stored.Keys
      invariant g.Keys == stored.Keys - rest
      invariant forall id :: id in g ==> g[id] == Node(stored[id], None)
      decreases rest
    {
      var id :| id in rest;
      g := g[id := Node(stored[id], None)];
      rest := rest - {id};
    }
    rest := g.Keys;
    while rest != {}
      invariant rest <= g.Keys && g.Keys == stored.Keys
      invariant forall id :: id in g ==> g[id].commit == stored[id]
      invariant forall id :: id in rest ==> g[id].parent == None
      invariant forall id :: id in g && id !in rest ==> g[id].parent == ReloadedLink(stored, stored[id])
      decreases rest
    {
      var id :| id in rest;
      var c := g[id].commit;
      var link := if c.parent.Some? && c.parent.value in g then c.parent else None;
      g := g[id := Node(c, link)];
      rest := rest - {id};
    }
  }

  class Repository {
    const index: Staging.Index
    /** The commit graph: commit id to node. */
    var graph: Graph
    /** The current node (curNode). */
    var cur: CommitId
    /** The HEAD commit id of the metadata (metainf.headCommitHash). */
    var head: CommitId
    /** The branch registry (metainf.branches). */
    var branches: map<string, CommitId>
    /** The hashes of the blobs in the blob store. */
    var blobs: set<Hash>
    /** The ids whose commit records are persisted. */
    var records: set<CommitId>
    /** The working tree: path to content hash. */
    var tree: map<Path, Hash>
    /** A witness that parent links are acyclic. */
    ghost var rank: map<CommitId, nat>

    ghost predicate Valid()
      reads this
    {
      && Ranked(graph, rank)
      && cur in graph
      && (forall id :: id in graph ==> ValidId(id))
    }

    /** The commit of the current node. */
    function CurrentCommit(): Commit
      reads this
      requires Valid()
    {
      graph[cur].commit
    }

    /** The content hash of a path of the working tree; "" when it does not exist. */
    function FileHash(p: Path): (h: Hash)
      reads this`tree
      ensures p in tree ==> h == tree[p]
      ensures p !in tree ==> h == MissingHash
    {
      if p in tree then tree[p] else MissingHash
    }

    /** The commit has the path but the working tree does not. */
    predicate IsDeletedFile(p: Path, c: Commit)
      reads this`tree
      ensures IsDeletedFile(p, c) <==> p in c.files && p !in tree
    {
      c.ContainsName(p) && p !in tree
    }

    /** How `add` stages a path, relative to the current commit's snapshot. */
    function GetFileMode(p: Path): (m: FileMode)
      reads this
      requires Valid()
      ensures m == Deleted <==> p in CurrentCommit().files && p !in tree
      ensures m == Modified <==> p in CurrentCommit().files && p in tree
      ensures m == New <==> p !in CurrentCommit().files
    {
      if IsDeletedFile(p, CurrentCommit()) then Deleted
      else if CurrentCommit().ContainsName(p) then Modified
      else New
    }

    /** No path is staged as deleted and as new or modified at once. */
    predicate IndexDisjoint()
      reads this, index
    {
      forall p :: p in index.deletedFiles ==> p !in index.newFiles && p !in index.modifiedFiles
    }

    /**
     * `init` in a directory that is not yet a repository: stages every file of
     * the working tree as new, writes the root commit "Initial commit" on
     * "master" from that index and registers it. The index is not cleared and
     * no blob is stored.
     */
    constructor Init(workTree: map<Path, Hash>, id: CommitId, author: string, date: int)
      requires ValidId(id)
      ensures fresh(index)
      ensures Valid() && IndexDisjoint()
      ensures index.newFiles == workTree && index.modifiedFiles == map[] && index.deletedFiles == {}
      ensures graph.Keys == {id} && graph[id].parent == None
      ensures var c := graph[id].commit;
        && c.id == id && c.message == InitialMessage && c.branch == Master
        && c.parent == None && c.files == workTree
      ensures cur == id && head == id && branches == map[Master := id]
      ensures records == {id} && blobs == {} && tree == workTree
    {
      var idx := new Staging.Index();
      var rest := workTree.Keys;
      while rest != {}
        invariant rest <= workTree.Keys
        invariant idx.newFiles == workTree - rest
        invariant idx.modifiedFiles == map[] && idx.deletedFiles == {}
        decreases rest
      {
        var p :| p in rest;
        var _ := idx.Add(p, workTree[p], New);
        rest := rest - {p};
      }
      assert workTree - {} == workTree;
      var root := NewCommit(InitialMessage, None, idx, Master, id, author, date);
      index := idx;
      graph := map[id := Node(root, None)];
      cur := id;
      head := id;
      branches := map[Master := id];
      blobs := {};
      records := {id};
      tree := workTree;
      rank := map[id := 0];
    }

    /**
     * `init` in an existing repository: reloads the metadata and every
     * persisted commit, rebuilds the graph and makes HEAD the current node.
     * `order` witnesses that the recorded parent ids have no cycle.
     */
    constructor Reload(stored: map<CommitId, Commit>, headId: CommitId, registry: map<string, CommitId>,
                       storedBlobs: set<Hash>, workTree: map<Path, Hash>, ghost order: map<CommitId, nat>)
      requires forall id :: id in stored ==> stored[id].id == id && ValidId(id) && id in order
      requires forall id :: id in stored && stored[id].parent.Some? && stored[id].parent.value in stored ==>
        order[stored[id].parent.value] < order[id]
      requires headId in stored
      ensures fresh(index)
      ensures Valid() && IndexDisjoint()
      ensures index.newFiles == map[] && index.modifiedFiles == map[] && index.deletedFiles == {}
      ensures graph.Keys == stored.Keys
      ensures forall id :: id in graph ==>
        graph[id].commit == stored[id] && graph[id].parent == ReloadedLink(stored, stored[id])
      ensures cur == headId && head == headId && branches == registry
      ensures records == stored.Keys && blobs == storedBlobs && tree == workTree
    {
      var g := Relink(stored);
      index := new Staging.Index();
      graph := g;
      cur := headId;
      head := headId;
      branches := registry;
      blobs := storedBlobs;
      records := stored.Keys;
      tree := workTree;
      rank := order;
    }

    /**
     * getRelativeRevisionFromHead: the id `n` parent steps back from the
     * current node; None where the source dereferences a null parent.
     */
    method RelativeRevision(n: int) returns (r: Option<CommitId>)
      requires Valid()
      ensures n <= 0 ==> r == Some(cur)
      ensures n > 0 ==> r == Ancestor(graph, cur, n)
      ensures r.Some? ==> r.value in graph
    {
      var nd := cur;
      var i := 0;
      while i < n
        invariant 0 <= i && (i <= n || i == 0)
        invariant nd in graph && Ancestor(graph, cur, i) == Some(nd)
      {
        AncestorStep(graph, cur, i);
        match graph[nd].parent {
          case None =>
            AncestorNoneStays(graph, cur, i + 1, n);
            return None;
          case Some(q) =>
            nd := q;
        }
        i := i + 1;
      }
      r := Some(nd);
    }

    /**
     * addFileIfUntracked: files `p` under the first rule that applies to it:
     * untracked new (in neither the commit nor the index), removed (in the
     * commit, missing from the tree), or untracked modified (in the commit
     * with another hash, and not staged with the current one).
     */
    method AddFileIfUntracked(p: Path, c: Commit, uNew: set<Path>, uMod: set<Path>, uDel: set<Path>)
      returns (uNew': set<Path>, uMod': set<Path>, uDel': set<Path>)
      ensures var h := FileHash(p);
        if !c.ContainsName(p) && !index.ContainsName(p) then
          uNew' == uNew + {p} && uMod' == uMod && uDel' == uDel
        else if c.ContainsName(p) && p !in tree then
          uNew' == uNew && uMod' == uMod && uDel' == uDel + {p}
        else if c.ContainsName(p) && !c.ContainsFile(p, h) && !index.ContainsFile(p, h) then
          uNew' == uNew && uMod' == uMod + {p} && uDel' == uDel
        else
          uNew' == uNew && uMod' == uMod && uDel' == uDel
    {
      var h := FileHash(p);
      uNew', uMod', uDel' := uNew, uMod, uDel;
      if !c.ContainsName(p) && !index.ContainsName(p) {
        uNew' := uNew + {p};
      } else if IsDeletedFile(p, c) {
        uDel' := uDel + {p};
      } else if c.ContainsName(p) && !c.ContainsFile(p, h) && !index.ContainsFile(p, h) {
        uMod' := uMod + {p};
      }
    }

    /**
     * The walk over the working tree in status: every file goes through
     * addFileIfUntracked; what is left of the removed candidates (the commit's
     * and the index's paths) once the tree's paths are taken out is removed.
     */
    method ScanTree(c: Commit) returns (uNew: set<Path>, uMod: set<Path>, uDel: set<Path>)
      ensures forall p :: p in uNew <==> p in tree && p !in c.files && !index.ContainsName(p)
      ensures forall p :: p in uMod <==>
        p in tree && p in c.files && c.files[p] != tree[p] && !index.ContainsFile(p, tree[p])
      ensures uDel == (c.files.Keys + index.newFiles.Keys + index.modifiedFiles.Keys) - tree.Keys
    {
      uNew, uMod := {}, {};
      uDel := c.files.Keys + index.newFiles.Keys + index.modifiedFiles.Keys;
      var rest := tree.Keys;
      while rest != {}
        invariant rest <= tree.Keys
        invariant forall p :: p in uNew <==> p in tree && p !in rest && p !in c.files && !index.ContainsName(p)
        invariant forall p :: p in uMod <==>
          p in tree && p !in rest && p in c.files && c.files[p] != tree[p] && !index.ContainsFile(p, tree[p])
        invariant uDel == (c.files.Keys + index.newFiles.Keys + index.modifiedFiles.Keys) - (tree.Keys - rest)
        decreases rest
      {
        var p :| p in rest;
        uNew, uMod, uDel := AddFileIfUntracked(p, c, uNew, uMod, uDel);
        uDel := uDel - {p};
        rest := rest - {p};
      }
    }

    /**
     * status: detached when HEAD is not the registered head of the current
     * commit's branch; otherwise the staged new and modified paths and the
     * untracked new, modified and removed paths of the working tree.
     */
    method Status() returns (r: StatusReport)
      requires Valid()
      ensures r.Detached? <==> Get(branches, CurrentCommit().branch) != Some(head)
      ensures r.Report? ==>
        var c := CurrentCommit();
        && r.branch == c.branch
        && r.stagedNew == index.newFiles.Keys && r.stagedModified == index.modifiedFiles.Keys
        && (forall p :: p in r.untrackedNew <==> p in tree && p !in c.files && !index.ContainsName(p))
        && (forall p :: p in r.untrackedModified <==>
              p in tree && p in c.files && c.files[p] != tree[p] && !index.ContainsFile(p, tree[p]))
        && r.untrackedRemoved == (c.files.Keys + index.newFiles.Keys + index.modifiedFiles.Keys) - tree.Keys
        && (r.upToDate <==>
              index.IsEmpty() && r.untrackedNew == {} && r.untrackedModified == {} && r.untrackedRemoved == {})
    {
      var c := graph[cur].commit;
      if Get(branches, c.branch) != Some(head) {
        return Detached;
      }
      var uNew, uMod, uDel := ScanTree(c);
      var upToDate := true;
      if !index.IsEmpty() {
        upToDate := false;
      }
      if uNew != {} || uMod != {} || uDel != {} {
        upToDate := false;
      }
      r := Report(c.branch, index.newFiles.Keys, index.modifiedFiles.Keys, uNew, uMod, uDel, upToDate);
    }

    // ----- add and rm ------------------------------------------------------

    /**
     * The effect of addFileToIndex(p, h) given the mode `p` is staged in: the
     * index stages it; the blob the index held before for `p` is deleted
     * (failing if it is missing); then, if the file exists, its content is
     * copied into the store under `h` (failing if that blob already exists,
     * as the copy does not replace).
     */
    twostate predicate AddedToIndex(p: Path, h: Hash, mode: FileMode, res: Outcome)
      reads this, index
    {
      && Staging.StagedAs(index, p, h, mode)
      && var prev := old(index.Previous(p, mode));
         var kept := if prev.Some? then old(blobs) - {prev.value} else old(blobs);
         if prev.Some? && prev.value !in old(blobs) then res == Fail(IOFailure) && blobs == old(blobs)
         else if p !in tree then res == Pass && blobs == kept
         else if h in kept then res == Fail(IOFailure) && blobs == kept
         else res == Pass && blobs == kept + {h}
    }

    /** addFileToIndex: stages `p` with hash `h` in the mode getFileMode assigns it. */
    method AddFileToIndex(p: Path, h: Hash) returns (res: Outcome)
      requires Valid()
      modifies this`blobs, index
      ensures Valid()
      ensures AddedToIndex(p, h, old(GetFileMode(p)), res)
      ensures res == Pass && p in tree ==> h in blobs
    {
      var mode := GetFileMode(p);
      var prev := index.Add(p, h, mode);
      if prev.Some? {
        if prev.value !in blobs {
          return Fail(IOFailure);
        }
        blobs := blobs - {prev.value};
      }
      if p in tree {
        if h in blobs {
          return Fail(IOFailure);
        }
        blobs := blobs + {h};
      }
      res := Pass;
    }

    /**
     * `add` of one path: nothing to do when the index already holds the
     * path with its current content (or as deleted); otherwise addFileToIndex.
     * Either way the index then holds the path with its current content, and
     * no other path's entry changes.
     */
    method AddPath(p: Path) returns (res: Outcome)
      requires Valid()
      modifies this`blobs, index
      ensures Valid()
      ensures old(index.ContainsFile(p, FileHash(p))) ==> res == Pass && blobs == old(blobs) && unchanged(index)
      ensures !old(index.ContainsFile(p, FileHash(p))) ==> AddedToIndex(p, FileHash(p), old(GetFileMode(p)), res)
      ensures index.ContainsFile(p, FileHash(p))
      ensures forall q, h :: q != p ==> (index.ContainsFile(q, h) <==> old(index.ContainsFile(q, h)))
      ensures old(IndexDisjoint()) ==> IndexDisjoint()
      ensures blobs <= old(blobs) + {FileHash(p)}
    {
      var h := FileHash(p);
      if index.ContainsFile(p, h) {
        return Pass;
      }
      res := AddFileToIndex(p, h);
    }

    /** `add` of a list of paths, stopping at the first failure. */
    method Add(paths: seq<Path>) returns (res: Outcome)
      requires Valid()
      modifies this`blobs, index
      ensures Valid()
      ensures res.Fail? ==> res == Fail(IOFailure)
      ensures res == Pass ==> forall p :: p in paths ==> index.ContainsFile(p, FileHash(p))
      ensures forall q, h :: q !in paths ==> (index.ContainsFile(q, h) <==> old(index.ContainsFile(q, h)))
      ensures old(IndexDisjoint()) ==> IndexDisjoint()
      ensures blobs <= old(blobs) + (set p | p in paths :: FileHash(p))
    {
      ghost var current := set p | p in paths :: FileHash(p);
      var i := 0;
      while i < |paths|
        invariant 0 <= i <= |paths| && Valid()
        invariant forall j :: 0 <= j < i ==> index.ContainsFile(paths[j], FileHash(paths[j]))
        invariant forall q, h :: q !in paths ==> (index.ContainsFile(q, h) <==> old(index.ContainsFile(q, h)))
        invariant old(IndexDisjoint()) ==> IndexDisjoint()
        invariant blobs <= old(blobs) + current
      {
        assert FileHash(paths[i]) in current;
        res := AddPath(paths[i]);
        if res.Fail? {
          return;
        }
        i := i + 1;
      }
      res := Pass;
    }

    /**
     * The effect of rmFileFromIndex(p): the blob of the hash the index holds
     * for `p` is deleted, failing when there is no such hash or no such blob
     * (the index is then left alone); on success `p` is unstaged.
     */
    twostate predicate RemovedFromIndex(p: Path, res: Outcome)
      reads this, index
    {
      var h := old(index.GetFileHash(p));
      if h.None? || h.value !in old(blobs) then
        res == Fail(IOFailure) && blobs == old(blobs) && unchanged(index)
      else
        res == Pass && blobs == old(blobs) - {h.value} && Staging.Unstaged(index, p)
    }

    /** rmFileFromIndex: deletes the blob of the staged hash of `p`, then unstages `p`. */
    method RmFileFromIndex(p: Path) returns (res: Outcome)
      modifies this`blobs, index
      ensures RemovedFromIndex(p, res)
    {
      var h := index.GetFileHash(p);
      if h.None? || h.value !in blobs {
        return Fail(IOFailure);
      }
      blobs := blobs - {h.value};
      index.Delete(p);
      res := Pass;
    }

    /**
     * `rm` of one path: nothing to do unless the index holds the path with its
     * current content (or as deleted); otherwise rmFileFromIndex. A path
     * staged only as deleted has no staged hash, so removing it fails.
     */
    method RmPath(p: Path) returns (res: Outcome)
      modifies this`blobs, index
      ensures !old(index.ContainsFile(p, FileHash(p))) ==> res == Pass && blobs == old(blobs) && unchanged(index)
      ensures old(index.ContainsFile(p, FileHash(p))) ==> RemovedFromIndex(p, res)
      ensures old(p in index.deletedFiles && IndexDisjoint()) ==> res == Fail(IOFailure)
      ensures old(IndexDisjoint()) ==> IndexDisjoint()
    {
      var h := FileHash(p);
      if !index.ContainsFile(p, h) {
        return Pass;
      }
      res := RmFileFromIndex(p);
    }

    /** `rm` of a list of paths, stopping at the first failure; it only ever removes. */
    method Rm(paths: seq<Path>) returns (res: Outcome)
      modifies this`blobs, index
      ensures res.Fail? ==> res == Fail(IOFailure)
      ensures blobs <= old(blobs)
      ensures index.newFiles.Items <= old(index.newFiles.Items)
      ensures index.modifiedFiles.Items <= old(index.modifiedFiles.Items)
      ensures index.deletedFiles <= old(index.deletedFiles)
      ensures old(IndexDisjoint()) ==> IndexDisjoint()
    {
      var i := 0;
      while i < |paths|
        invariant 0 <= i <= |paths|
        invariant blobs <= old(blobs)
        invariant index.newFiles.Items <= old(index.newFiles.Items)
        invariant index.modifiedFiles.Items <= old(index.modifiedFiles.Items)
        invariant index.deletedFiles <= old(index.deletedFiles)
        invariant old(IndexDisjoint()) ==> IndexDisjoint()
      {
        res := RmPath(paths[i]);
        if res.Fail? {
          return;
        }
        i := i + 1;
      }
      res := Pass;
    }

    // ----- commit and branch create ------------------------------------------

    /**
     * The effect of makeCommit(message, branchName) with the fresh id `id`:
     * a child of the current commit with the snapshot of the parent updated
     * by the index becomes the current node and HEAD; the registry records it
     * under `branchName` if that name is new, and otherwise under the PARENT's
     * branch; the index drops the new and modified files; the record is persisted.
     */
    twostate predicate Committed(message: string, branchName: string, id: CommitId, author: string, date: int)
      reads this, index
    {
      && old(cur) in old(graph) && id !in old(graph) && id in graph
      && var parent := old(graph)[old(cur)].commit;
         && graph == old(graph)[id := Node(graph[id].commit, Some(old(cur)))]
         && graph[id].commit == Commit(id, author, message, branchName, Some(parent.id), date,
              Snapshot(parent.files, old(index.newFiles), old(index.modifiedFiles), old(index.deletedFiles)))
         && cur == id && head == id
         && branches == (if branchName in old(branches) then old(branches)[parent.branch := id]
                         else old(branches)[branchName := id])
         && index.newFiles == map[] && index.modifiedFiles == map[] && index.deletedFiles == old(index.deletedFiles)
         && records == old(records) + {id} && blobs == old(blobs) && tree == old(tree)
    }

    method MakeCommit(message: string, branchName: string, id: CommitId, author: string, date: int)
      requires Valid() && ValidId(id) && id !in graph
      modifies this`graph, this`rank, this`cur, this`head, this`branches, this`records, index
      ensures Valid()
      ensures Committed(message, branchName, id, author, date)
      ensures IndexDisjoint()
    {
      var parentCommit := graph[cur].commit;
      var c := NewCommit(message, Some(parentCommit), index, branchName, id, author, date);
      if branchName !in branches {
        branches := branches[branchName := c.id];
      } else {
        branches := branches[parentCommit.branch := c.id];
      }
      index.Clear();
      Attach(c);
    }

    /** Links the new commit `c` under the current node, makes it current and HEAD, and persists its record. */
    method Attach(c: Commit)
      requires Valid() && ValidId(c.id) && c.id !in graph
      modifies this`graph, this`rank, this`cur, this`head, this`records
      ensures Valid()
      ensures graph == old(graph)[c.id := Node(c, Some(old(cur)))]
      ensures cur == c.id && head == c.id && records == old(records) + {c.id}
    {
      var prev := cur;
      AddChildRanked(graph, rank, c.id, c, prev);
      graph := graph[c.id := Node(c, Some(prev))];
      rank := rank[c.id := rank[prev] + 1];
      cur := c.id;
      head := c.id;
      records := records + {c.id};
    }

    /** `commit`: a commit on the current branch, whose registered head then moves to it. */
    method CommitStaged(message: string, id: CommitId, author: string, date: int)
      requires Valid() && ValidId(id) && id !in graph
      modifies this, index
      ensures Valid()
      ensures Committed(message, old(CurrentCommit().branch), id, author, date)
      ensures branches == old(branches)[old(CurrentCommit().branch) := id]
      ensures IndexDisjoint()
    {
      MakeCommit(message, graph[cur].commit.branch, id, author, date);
    }

    /**
     * `branch create`: a marker commit labelled `name`. With nothing staged its
     * snapshot is the current commit's.
     */
    method BranchCreate(name: string, id: CommitId, author: string, date: int)
      requires Valid() && ValidId(id) && id !in graph
      modifies this, index
      ensures Valid()
      ensures Committed(MarkerMessage, name, id, author, date)
      ensures graph[id].commit.IsMarker()
      ensures old(index.IsEmpty()) ==> graph[id].commit.files == old(CurrentCommit().files)
      ensures IndexDisjoint()
    {
      MakeCommit(MarkerMessage, name, id, author, date);
    }

    // ----- log -------------------------------------------------------------

    /**
     * `log`: the ids of the commits printed, newest first. A `HEAD~N` argument
     * whose number does not parse is a NumberFormatException.
     */
    method Log(revision: Option<string>) returns (r: Result<seq<CommitId>>)
      requires Valid()
      ensures WalkBound(revision).Failure? ==> r == Failure(NotANumber)
      ensures WalkBound(revision).Success? ==>
        var b := WalkBound(revision).value;
        r == Success(LogWalk(graph, rank, Some(cur), b.stopAt, b.steps))
    {
      var bound := WalkBound(revision);
      if bound.Failure? {
        return Failure(bound.error);
      }
      var printed := LogFrom(bound.value.stopAt, bound.value.steps);
      r := Success(printed);
    }

    /** The loop of `log`: from HEAD to (not including) `stopAt`, `count + 1` commits that are not markers. */
    method LogFrom(stopAt: string, count: int) returns (printed: seq<CommitId>)
      requires Valid()
      ensures printed == LogWalk(graph, rank, Some(cur), stopAt, count)
    {
      var k := count;
      var nd: Option<CommitId> := Some(cur);
      printed := [];
      while nd.Some? && graph[nd.value].commit.id != stopAt && k >= 0
        invariant nd.Some? ==> nd.value in graph
        invariant printed + LogWalk(graph, rank, nd, stopAt, k) == LogWalk(graph, rank, Some(cur), stopAt, count)
        decreases if nd.Some? then rank[nd.value] + 1 else 0
      {
        var c := graph[nd.value].commit;
        if c.message == MarkerMessage {
          nd := graph[nd.value].parent;
          continue;
        }
        printed := printed + [nd.value];
        nd := graph[nd.value].parent;
        k := k - 1;
      }
      assert LogWalk(graph, rank, nd, stopAt, k) == [];
      assert printed + [] == printed;
    }

    // ----- deleteLastCommits and reset -------------------------------------

    /**
     * Deletes the blobs a removed commit `c` takes with it, path by path in
     * any order, stopping at the first blob that is missing.
     */
    method CollectOrphans(c: Commit, parent: Commit) returns (ok: bool)
      modifies this`blobs
      ensures ok <==> OrphansDeletable(c, parent, old(blobs))
      ensures ok ==> blobs == old(blobs) - OrphanBlobs(c, parent)
      ensures old(blobs) - OrphanBlobs(c, parent) <= blobs <= old(blobs)
    {
      ghost var done: set<Path> := {};
      var rest := c.files.Keys;
      while rest != {}
        invariant rest <= c.files.Keys && done == c.files.Keys - rest
        invariant blobs == old(blobs) - (set p | p in done && Qualifies(c, parent, p) :: c.files[p])
        invariant forall p :: p in done && Qualifies(c, parent, p) ==> c.files[p] in old(blobs)
        invariant forall p, q :: p in done && q in done && p != q && Qualifies(c, parent, p) && Qualifies(c, parent, q) ==>
          c.files[p] != c.files[q]
        decreases rest
      {
        var p :| p in rest;
        var h := c.files[p];
        if c.ContainsFile(p, h) && !parent.ContainsFile(p, h) {
          if h !in blobs {
            if h in old(blobs) {
              var q :| q in done && Qualifies(c, parent, q) && c.files[q] == h;
              assert q != p && Qualifies(c, parent, p);
            }
            return false;
          }
          blobs := blobs - {h};
        }
        rest := rest - {p};
        done := done + {p};
      }
      ok := true;
    }

    /** Where the walk of WalkedBack leaves the current node. */
    function WalkEnd(from: CommitId, stopAt: string, steps: int, done: nat): CommitId
      reads this
      requires Linked(graph) && from in graph
    {
      var w := Trail(graph, from, stopAt, steps);
      if done < |w.removed| then w.removed[done] else w.last
    }

    /** The effect of the walk of deleteLastCommits from `from` (see WalkOutcome). */
    twostate predicate WalkedBack(from: CommitId, stopAt: string, steps: int, res: Outcome, done: nat)
      reads this
    {
      && graph == old(graph) && Linked(graph) && from in graph
      && WalkOutcome(graph, Trail(graph, from, stopAt, steps), old(blobs), old(records), blobs, records, res, done)
    }

    /**
     * One round of the loop of deleteLastCommits: deletes the orphan blobs of
     * the current commit, whose parent is `q`, then its record.
     */
    method RemoveCurrent(q: CommitId) returns (ok: bool)
      requires Linked(graph) && cur in graph && graph[cur].parent == Some(q)
      modifies this`blobs, this`records
      ensures ok <==> StepOk(graph, cur, old(blobs), old(records))
      ensures ok ==> blobs == old(blobs) - CommitOrphans(graph, cur) && records == old(records) - {cur}
      ensures !ok ==> old(blobs) - CommitOrphans(graph, cur) <= blobs <= old(blobs) && records == old(records)
    {
      ok := CollectOrphans(graph[cur].commit, graph[q].commit);
      if !ok {
        return;
      }
      if cur !in records {
        return false;
      }
      records := records - {cur};
    }

    /**
     * The loop of deleteLastCommits: while the current node is not `stopAt`
     * and steps remain, remove the current commit and move to its parent.
     */
    method WalkBack(stopAt: string, steps: int) returns (res: Outcome, ghost done: nat)
      requires Valid()
      modifies this`cur, this`blobs, this`records
      ensures Valid()
      ensures WalkedBack(old(cur), stopAt, steps, res, done)
      ensures cur == WalkEnd(old(cur), stopAt, steps, done)
    {
      ghost var w := Trail(graph, cur, stopAt, steps);
      var k := steps;
      done := 0;
      res := Pass;
      while graph[cur].commit.id != stopAt && k > 0
        invariant cur in graph
        invariant OnTrail(graph, cur, stopAt, k, w, done)
        invariant WalkProgress(graph, w, old(blobs), old(records), blobs, records, done)
        decreases k
      {
        if graph[cur].parent.None? {
          res := Fail(TooLongReset);
          break;
        }
        var q := graph[cur].parent.value;
        TrailAdvance(graph, cur, stopAt, k, w, done);
        ghost var (blobs0, records0) := (blobs, records);
        var ok := RemoveCurrent(q);
        WalkStep(graph, w, old(blobs), old(records), blobs0, records0, blobs, records, done, ok);
        if !ok {
          res := Fail(IOFailure);
          break;
        }
        cur := q;
        k := k - 1;
        done := done + 1;
      }
      if res != Fail(IOFailure) {
        TrailHalts(graph, cur, stopAt, k, w, done);
        WalkFinished(graph, w, old(blobs), old(records), blobs, records, done);
      }
    }

    /** deleteLastCommits: the walk back from the current node to the bounds the revision gives. */
    method DeleteLastCommits(revision: string) returns (res: Outcome, ghost done: nat)
      requires Valid()
      modifies this`cur, this`blobs, this`records
      ensures Valid()
      ensures WalkBound(Some(revision)).Failure? ==>
        res == Fail(NotANumber) && cur == old(cur) && blobs == old(blobs) && records == old(records)
      ensures WalkBound(Some(revision)).Success? ==>
        var b := WalkBound(Some(revision)).value;
        WalkedBack(old(cur), b.stopAt, b.steps, res, done) && cur == WalkEnd(old(cur), b.stopAt, b.steps, done)
    {
      var bound := WalkBound(Some(revision));
      if bound.Failure? {
        return Fail(bound.error), 0;
      }
      res, done := WalkBack(bound.value.stopAt, bound.value.steps);
    }

    /**
     * updateDirectoryByCommit: deletes every file of the working tree, then
     * copies each file of the snapshot from the store, stopping at the first
     * blob that is missing.
     */
    method Materialize(c: Commit) returns (ok: bool)
      modifies this`tree
      ensures ok <==> c.files.Values <= blobs
      ensures ok ==> tree == c.files
      ensures tree.Items <= c.files.Items
    {
      var doomed := tree.Keys;
      while doomed != {}
        invariant tree.Keys == doomed
        decreases doomed
      {
        var p :| p in doomed;
        tree := tree - {p};
        doomed := doomed - {p};
      }
      var pending := c.files.Keys;
      while pending != {}
        invariant pending <= c.files.Keys
        invariant tree == map p | p in c.files.Keys - pending :: c.files[p]
        invariant forall p :: p in c.files.Keys - pending ==> c.files[p] in blobs
        decreases pending
      {
        var p :| p in pending;
        var h := c.files[p];
        if !(p in tree && c.ContainsFile(p, FileHash(p))) {
          if h !in blobs {
            assert h in c.files.Values;
            return false;
          }
          tree := tree[p := h];
        }
        pending := pending - {p};
      }
      ok := true;
    }

    /**
     * `reset`: deleteLastCommits, then the working tree is rewritten to the
     * snapshot of the commit the walk stopped on, which becomes HEAD and the
     * registered head of its own branch. `walked` is the outcome of the walk.
     */
    method Reset(revision: string) returns (res: Outcome, walked: Outcome, ghost done: nat)
      requires Valid()
      modifies this`cur, this`blobs, this`records, this`tree, this`head, this`branches
      ensures Valid()
      ensures WalkBound(Some(revision)).Failure? ==>
        walked == Fail(NotANumber) && cur == old(cur) && blobs == old(blobs) && records == old(records)
      ensures WalkBound(Some(revision)).Success? ==>
        var b := WalkBound(Some(revision)).value;
        WalkedBack(old(cur), b.stopAt, b.steps, walked, done) && cur == WalkEnd(old(cur), b.stopAt, b.steps, done)
      ensures walked.Fail? ==>
        res == walked && tree == old(tree) && head == old(head) && branches == old(branches)
      ensures walked == Pass ==>
        var c := CurrentCommit();
        && (res == Pass <==> c.files.Values <= blobs)
        && tree.Items <= c.files.Items
        && (res == Pass ==> tree == c.files && head == cur && branches == old(branches)[c.branch := cur])
        && (res.Fail? ==> res == Fail(IOFailure) && head == old(head) && branches == old(branches))
    {
      walked, done := DeleteLastCommits(revision);
      if walked.Fail? {
        return walked, walked, done;
      }
      var c := graph[cur].commit;
      var ok := Materialize(c);
      if !ok {
        return Fail(IOFailure), walked, done;
      }
      head := c.id;
      branches := branches[c.branch := c.id];
      res := Pass;
    }

    // ----- checkout ----------------------------------------------------------

    /**
     * The id `checkout <revision>` resolves: `HEAD~N` through
     * getRelativeRevisionFromHead (a null parent on the way is a
     * NullPointerException), otherwise the registered head of that branch
     * name, otherwise the argument itself.
     */
    function CheckoutTarget(arg: string): (r: Result<CommitId>)
      reads this
      requires Valid()
      ensures StartsWith(arg, HeadPrefix) && r.Success? ==> r.value in graph
    {
      if StartsWith(arg, HeadPrefix) then
        match RelativeSteps(arg)
        case Failure(e) => Failure(e)
        case Success(n) =>
          if n <= 0 then Success(cur)
          else match Ancestor(graph, cur, n)
            case None => Failure(NullParent)
            case Some(a) => Success(a)
      else if arg in branches then Success(branches[arg])
      else Success(arg)
    }

    /**
     * `checkout <revision>`: an id with no commit in the graph is refused;
     * otherwise that commit becomes the current node and HEAD and the
     * working tree is rewritten to its snapshot.
     */
    method CheckoutRevision(arg: string) returns (res: Outcome)
      requires Valid()
      modifies this`cur, this`head, this`tree
      ensures Valid()
      ensures old(CheckoutTarget(arg)).Failure? ==>
        res == Fail(old(CheckoutTarget(arg)).error) && unchanged(this)
      ensures old(CheckoutTarget(arg)).Success? && old(CheckoutTarget(arg)).value !in graph ==>
        res == Fail(UnknownCommit) && unchanged(this)
      ensures old(CheckoutTarget(arg)).Success? && old(CheckoutTarget(arg)).value in graph ==>
        var c := graph[old(CheckoutTarget(arg)).value].commit;
        && cur == c.id && head == c.id
        && (res == Pass <==> c.files.Values <= blobs)
        && (res.Fail? ==> res == Fail(IOFailure))
        && (res == Pass ==> tree == c.files)
        && tree.Items <= c.files.Items
    {
      var t: CommitId;
      if StartsWith(arg, HeadPrefix) {
        var n := RelativeSteps(arg);
        if n.Failure? {
          return Fail(n.error);
        }
        var r := RelativeRevision(n.value);
        if r.None? {
          return Fail(NullParent);
        }
        t := r.value;
      } else {
        t := if arg in branches then branches[arg] else arg;
      }
      if t !in graph {
        return Fail(UnknownCommit);
      }
      cur := t;
      head := graph[t].commit.id;
      var ok := Materialize(graph[t].commit);
      res := if ok then Pass else Fail(IOFailure);
    }

    /** The hash `checkout --` restores a path from: the staged one, else the current commit's. */
    function RestoreSource(p: Path): (r: Option<Hash>)
      reads this`graph, this`cur, index
      requires cur in graph
      ensures r.None? <==> index.GetFileHash(p).None? && p !in graph[cur].commit.files
      ensures index.GetFileHash(p).Some? ==> r == index.GetFileHash(p)
      ensures index.GetFileHash(p).None? && r.Some? ==> r.value == graph[cur].commit.files[p]
    {
      var staged := index.GetFileHash(p);
      if staged.Some? then staged else Get(graph[cur].commit.files, p)
    }

    /** The listed paths that have a hash to restore from, with that hash. */
    function Restorable(paths: seq<Path>): map<Path, Hash>
      reads this`graph, this`cur, index
      requires cur in graph
    {
      if paths == [] then map[]
      else
        var m := Restorable(paths[..|paths| - 1]);
        var p := paths[|paths| - 1];
        match RestoreSource(p)
        case None => m
        case Some(h) => m[p := h]
    }

    /** One path of `checkout --`: copies the blob it is restored from over it, if it has one. */
    method RestoreFile(p: Path) returns (ok: bool)
      requires cur in graph
      modifies this`tree
      ensures RestoreSource(p).None? ==> ok && tree == old(tree)
      ensures RestoreSource(p).Some? ==>
        (ok <==> RestoreSource(p).value in blobs) &&
        tree == if ok then old(tree)[p := RestoreSource(p).value] else old(tree)
    {
      var h := index.GetFileHash(p);
      if h.None? {
        h := Get(graph[cur].commit.files, p);
      }
      if h.None? {
        return true;
      }
      if h.value !in blobs {
        return false;
      }
      tree := tree[p := h.value];
      ok := true;
    }

    /** A path is restorable exactly when it is listed and has a hash to restore from, and then with that hash. */
    lemma {:induction false} RestorableAt(paths: seq<Path>, p: Path)
      requires cur in graph
      ensures p in Restorable(paths) <==> p in paths && RestoreSource(p).Some?
      ensures p in Restorable(paths) ==> RestoreSource(p) == Some(Restorable(paths)[p])
      decreases |paths|
    {
      if paths != [] {
        var init := paths[..|paths| - 1];
        RestorableAt(init, p);
        assert paths == init + [paths[|paths| - 1]];
        assert p in paths <==> p in init || p == paths[|paths| - 1];
      }
    }

    /** The restorable paths of a prefix one longer. */
    lemma RestorableSnoc(paths: seq<Path>, i: nat)
      requires cur in graph && i < |paths|
      ensures Restorable(paths[..i + 1]) ==
        match RestoreSource(paths[i])
        case None => Restorable(paths[..i])
        case Some(h) => Restorable(paths[..i])[paths[i] := h]
    {
      assert paths[..i + 1][..i] == paths[..i];
    }

    /**
     * `checkout -- <paths>`: each listed path with a hash to restore from is
     * overwritten with that blob; paths without one are skipped; a missing
     * blob stops the command at path `stop`, the paths before it restored and
     * the rest untouched.
     */
    method CheckoutFiles(paths: seq<Path>) returns (res: Outcome, ghost stop: nat)
      requires Valid()
      modifies this`tree
      ensures Valid()
      ensures res == Pass <==> forall p :: p in Restorable(paths) ==> Restorable(paths)[p] in blobs
      ensures res.Fail? ==> res == Fail(IOFailure)
      ensures res == Pass ==> stop == |paths| && tree == old(tree) + Restorable(paths)
      ensures res.Fail? ==>
        && stop < |paths|
        && (forall p :: p in Restorable(paths[..stop]) ==> Restorable(paths[..stop])[p] in blobs)
        && RestoreSource(paths[stop]).Some? && RestoreSource(paths[stop]).value !in blobs
        && tree == old(tree) + Restorable(paths[..stop])
    {
      var i := 0;
      while i < |paths|
        invariant 0 <= i <= |paths|
        invariant forall p :: p in Restorable(paths[..i]) ==> Restorable(paths[..i])[p] in blobs
        invariant tree == old(tree) + Restorable(paths[..i])
      {
        var p := paths[i];
        RestorableSnoc(paths, i);
        if RestoreSource(p).Some? {
          OverrideUpdate(old(tree), Restorable(paths[..i]), p, RestoreSource(p).value);
        }
        var ok := RestoreFile(p);
        if !ok {
          RestorableAt(paths, p);
          return Fail(IOFailure), i;
        }
        i := i + 1;
      }
      assert paths[..i] == paths;
      res, stop := Pass, i;
    }

    // ----- branch remove -------------------------------------------------------

    /**
     * The counting loop of branchRemove: how many consecutive commits from
     * `start` carry the label `name`, and the commit the run ends on.
     */
    method BranchRun(start: CommitId, name: string) returns (r: Option<nat>, fork: CommitId)
      requires Valid() && start in graph
      ensures r == LabelRun(graph, rank, start, name)
      ensures r.Some? ==> Ancestor(graph, start, r.value) == Some(fork) && graph[fork].commit.branch != name
    {
      var nd := start;
      var to := 0;
      while graph[nd].commit.branch == name
        invariant nd in graph
        invariant Ancestor(graph, start, to) == Some(nd)
        invariant LabelRun(graph, rank, start, name) ==
          match LabelRun(graph, rank, nd, name)
          case None => None
          case Some(k) => Some(k + to)
        decreases rank[nd]
      {
        AncestorStep(graph, start, to);
        if graph[nd].parent.None? {
          return None, nd;
        }
        nd := graph[nd].parent.value;
        to := to + 1;
      }
      r, fork := Some(to), nd;
    }

    /**
     * `branch remove`: refuses "master" and unregistered names; otherwise
     * counts the commits labelled `name` back from its registered head and
     * removes them with their orphan blobs, through `reset` when the branch is
     * checked out (HEAD then moves to the commit before the run) and directly
     * otherwise; finally the name leaves the registry. `k` is the count and
     * `fork` the commit before the run.
     */
    method BranchRemove(name: string) returns (res: Outcome, ghost k: nat, ghost fork: CommitId)
      requires Valid()
      modifies this`cur, this`head, this`branches, this`blobs, this`records, this`tree
      ensures Valid()
      ensures name == Master ==> res == Fail(CannotRemoveMaster) && unchanged(this)
      ensures name != Master && name !in old(branches) ==> res == Fail(NoSuchBranch) && unchanged(this)
      ensures name != Master && name in old(branches) ==>
        var top := old(branches)[name];
        && (top !in graph ==> res == Fail(NullParent))
        && (top in graph && LabelRun(graph, rank, top, name).None? ==> res == Fail(NullParent))
        && (top in graph && LabelRun(graph, rank, top, name).Some? ==>
              && k == LabelRun(graph, rank, top, name).value
              && Ancestor(graph, top, k) == Some(fork) && graph[fork].commit.branch != name
              && var removed := Trail(graph, top, "", k).removed;
                 && |removed| == k
                 && (res == Pass <==>
                       && k <= MaxInt && Removable(graph, removed, old(blobs), old(records))
                       && (old(CurrentCommit()).branch == name ==>
                             graph[fork].commit.files.Values <= old(blobs) - Collected(graph, removed)))
                 && (res.Fail? ==> res == Fail(NotANumber) || res == Fail(IOFailure))
                 && (res == Pass ==>
                       && blobs == old(blobs) - Collected(graph, removed)
                       && records == old(records) - Elems(removed)
                       && (old(CurrentCommit()).branch == name ==>
                             && cur == fork && head == fork && tree == graph[fork].commit.files
                             && branches == old(branches)[graph[fork].commit.branch := fork] - {name})
                       && (old(CurrentCommit()).branch != name ==>
                             && cur == old(cur) && head == old(head) && tree == old(tree)
                             && branches == old(branches) - {name})))
    {
      if name == Master {
        return Fail(CannotRemoveMaster), 0, cur;
      }
      if name !in branches {
        return Fail(NoSuchBranch), 0, cur;
      }
      var top := branches[name];
      if top !in graph {
        return Fail(NullParent), 0, cur;
      }
      var run, nd := BranchRun(top, name);
      if run.None? {
        cur := top;
        return Fail(NullParent), 0, cur;
      }
      k, fork := run.value, nd;
      var revision := RelativeArgument(run.value);
      assert !ValidId("");
      BranchWalkRemovesRun(graph, rank, top, name, k);
      ChainIsAncestors(graph, rank, top);
      res := RemoveRun(name, top, nd, revision, k);
    }

    /**
     * The rest of branchRemove, once the run of `k` commits labelled `name`
     * from the branch's head `top` is counted, `fork` is the commit after it
     * and `revision` reads as `HEAD~k`: makes `top` current and removes the
     * run, through `reset` when the commit current before carries the label;
     * then makes that commit current again, or `fork` after a reset, and drops
     * the name from the registry.
     */
    method RemoveRun(name: string, top: CommitId, fork: CommitId, revision: string, ghost k: nat)
      returns (res: Outcome)
      requires Valid() && top in graph && fork in graph
      requires WalkBound(Some(revision)) == if k <= MaxInt then Success(Bound("", k)) else Failure(NotANumber)
      requires !Trail(graph, top, "", k).overrun && Trail(graph, top, "", k).last == fork
      modifies this`cur, this`head, this`branches, this`blobs, this`records, this`tree
      ensures Valid()
      ensures var removed := Trail(graph, top, "", k).removed;
        res == Pass <==>
          && k <= MaxInt && Removable(graph, removed, old(blobs), old(records))
          && (graph[old(cur)].commit.branch == name ==>
                graph[fork].commit.files.Values <= old(blobs) - Collected(graph, removed))
      ensures res.Fail? ==> res == Fail(NotANumber) || res == Fail(IOFailure)
      ensures res == Pass ==>
        var removed := Trail(graph, top, "", k).removed;
        var saved := old(cur);
        && blobs == old(blobs) - Collected(graph, removed)
        && records == old(records) - Elems(removed)
        && (graph[saved].commit.branch == name ==>
              && cur == fork && head == fork && tree == graph[fork].commit.files
              && branches == old(branches)[graph[fork].commit.branch := fork] - {name})
        && (graph[saved].commit.branch != name ==>
              && cur == saved && head == old(head) && tree == old(tree)
              && branches == old(branches) - {name})
    {
      var saved := cur;
      var next := cur;
      cur := top;
      if graph[saved].commit.branch == name {
        next := fork;
        head := graph[fork].commit.id;
        res := ResetRun(fork, revision, k);
      } else {
        res := DeleteRun(revision, k);
      }
      if res.Fail? {
        return;
      }
      cur := next;
      branches := branches - {name};
      res := Pass;
    }

    /** branchRemove's removal of the `k` commits ahead of the current node when they are not checked out. */
    method DeleteRun(revision: string, ghost k: nat) returns (res: Outcome)
      requires Valid()
      requires WalkBound(Some(revision)) == if k <= MaxInt then Success(Bound("", k)) else Failure(NotANumber)
      requires !Trail(graph, cur, "", k).overrun
      modifies this`cur, this`blobs, this`records
      ensures Valid()
      ensures graph == old(graph) && head == old(head) && tree == old(tree) && branches == old(branches)
      ensures var removed := Trail(graph, old(cur), "", k).removed;
        res == Pass <==> k <= MaxInt && Removable(graph, removed, old(blobs), old(records))
      ensures res.Fail? ==> res == Fail(NotANumber) || res == Fail(IOFailure)
      ensures res == Pass ==>
        var removed := Trail(graph, old(cur), "", k).removed;
        blobs == old(blobs) - Collected(graph, removed) && records == old(records) - Elems(removed)
    {
      ghost var w := Trail(graph, cur, "", k);
      ghost var done;
      res, done := DeleteLastCommits(revision);
      if k <= MaxInt {
        WalkVerdict(graph, w, old(blobs), old(records), blobs, records, res, done);
        if res == Pass {
          WalkPassed(graph, w, old(blobs), old(records), blobs, records, done);
        }
      }
    }

    /**
     * branchRemove's removal of the `k` commits ahead of the current node when
     * they are checked out: a reset to `fork`, the commit after them.
     */
    method ResetRun(fork: CommitId, revision: string, ghost k: nat) returns (res: Outcome)
      requires Valid() && fork in graph
      requires WalkBound(Some(revision)) == if k <= MaxInt then Success(Bound("", k)) else Failure(NotANumber)
      requires !Trail(graph, cur, "", k).overrun && Trail(graph, cur, "", k).last == fork
      modifies this`cur, this`blobs, this`records, this`tree, this`head, this`branches
      ensures Valid()
      ensures var removed := Trail(graph, old(cur), "", k).removed;
        res == Pass <==>
          && k <= MaxInt && Removable(graph, removed, old(blobs), old(records))
          && graph[fork].commit.files.Values <= old(blobs) - Collected(graph, removed)
      ensures res.Fail? ==> res == Fail(NotANumber) || res == Fail(IOFailure)
      ensures res == Pass ==>
        var removed := Trail(graph, old(cur), "", k).removed;
        && blobs == old(blobs) - Collected(graph, removed) && records == old(records) - Elems(removed)
        && cur == fork && head == fork && tree == graph[fork].commit.files
        && branches == old(branches)[graph[fork].commit.branch := fork]
    {
      ghost var w := Trail(graph, cur, "", k);
      var walked;
      ghost var done;
      res, walked, done := Reset(revision);
      if k <= MaxInt {
        WalkVerdict(graph, w, old(blobs), old(records), blobs, records, walked, done);
        if walked == Pass {
          WalkPassed(graph, w, old(blobs), old(records), blobs, records, done);
        }
      }
    }
  }

  /**
   * `init` in an existing repository, including the case the Reload
   * constructor excludes: when the recorded HEAD id names no persisted
   * commit (as after a `reset` whose metadata was never written), the
   * source's current node becomes null, and the result is None.
   */
  method Open(stored: map<CommitId, Commit>, headId: CommitId, registry: map<string, CommitId>,
              storedBlobs: set<Hash>, workTree: map<Path, Hash>, ghost order: map<CommitId, nat>)
    returns (r: Option<Repository>)
    requires forall id :: id in stored ==> stored[id].id == id && ValidId(id) && id in order
    requires forall id :: id in stored && stored[id].parent.Some? && stored[id].parent.value in stored ==>
      order[stored[id].parent.value] < order[id]
    ensures r.None? <==> headId !in stored
    ensures r.Some? ==>
      var repo := r.value;
      && fresh(repo) && fresh(repo.index) && repo.Valid() && repo.IndexDisjoint()
      && repo.index.newFiles == map[] && repo.index.modifiedFiles == map[] && repo.index.deletedFiles == {}
      && repo.graph.Keys == stored.Keys
      && (forall id :: id in repo.graph ==>
            repo.graph[id].commit == stored[id] && repo.graph[id].parent == ReloadedLink(stored, stored[id]))
      && repo.cur == headId && repo.head == headId
      && repo.branches == registry && repo.records == stored.Keys
      && repo.blobs == storedBlobs && repo.tree == workTree
  {
    if headId !in stored {
      return None;
    }
    var repo := new Repository.Reload(stored, headId, registry, storedBlobs, workTree, order);
    r := Some(repo);
  }
}
