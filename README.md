# MyGit in Dafny

A model of the core of MyGit, a small Git-like version control tool written in
Java. The model covers the staging index, the construction of commit snapshots
and the repository engine, with the properties each of them promises proved.
The engine covers `init`, `status`, `add`, `rm`, `commit`, `log`, `checkout`,
`reset`, `branch create` and `branch remove`.

The filesystem is abstracted away:

- the working tree is a map from path to content hash;
- the blob store (`myGit/files`) is a set of hashes;
- the persisted commit records (`myGit/commits/*.json`) are a set of commit ids.

A copy or delete of a blob that would fail on the real filesystem fails in the
model too. For example, `Files.copy` onto an existing blob and `Files.delete`
of a missing blob both give `IOFailure`. The one exception is the empty hash
`""` that `getFileHash` returns for a missing file, which names the store
directory itself (see "Left out").

Modules:

- `Types` (types.dfy): paths, hashes, ids, `Option` for Java's null, the error
  kinds and the outcome types.
- `Staging` (index.dfy): the class `Index` with its three collections, updated
  in place by `Add`, `Delete` and `Clear`.
- `Commits` (commit.dfy): the `Commit` record and the snapshot equation
  `Snapshot`. The constructor `NewCommit` builds the snapshot step by step and
  is proved equal to that equation.
- `Revisions` (revision.dfy): `Integer.parseInt`, `String.format("%d")`, and
  the two loop bounds that `log` and `deleteLastCommits` take from a revision.
- `History` (history.dfy): the commit graph and the walks over parent links,
  each given as a function and characterised by lemmas:
  - `Ancestor` and `Chain` for the n-th ancestor and the whole history;
  - `Trail` for the walk of `deleteLastCommits`;
  - `LogWalk` for `log`;
  - `LabelRun` for the counting loop of `branchRemove`;
  - `OrphanBlobs` and `Collected` for the blobs that removed commits take with them.
- `Repo` (repository.dfy): the class `Repository`. Its fields are the graph,
  the current node, HEAD, the branch registry, the index, the blob store, the
  records and the working tree. Each command is a method whose contract ties
  the new state to the functions of `History` and `Commits`. `Valid()` holds
  throughout: the graph is acyclic through a ghost rank, the current node
  exists, and every id has the 40-character shape.

Behaviour of the code that the model keeps and its lemmas make visible:

- **The index rules are asymmetric.** Staging a path as NEW writes only
  `newFiles`, and staging it as MODIFIED writes only `modifiedFiles`. Staging it
  as DELETED adds it to `deletedFiles` and removes it from both maps. `delete`
  unstages from one collection only, and `clear` keeps the staged deletions. So
  a path can sit in both `newFiles` and `modifiedFiles`. A staged deletion
  never shares its path with either map, because `add` skips every path staged
  as deleted; the commands that change the index keep that (`IndexDisjoint`).
- **The first `init` stores no blob.** `Repo.Repository.Init` ensures
  `blobs == {}` even though it stages every file of the tree. A later `reset`
  or `checkout` back to the root commit therefore fails, unless the root's
  snapshot is empty or a later `add` stored those same blobs. That failure comes
  from `Materialize`, which succeeds exactly when every blob of the snapshot is
  present, and it happens after the working tree has been wiped. `Init` also
  leaves the index full.
- **Blob collection is per path.** `deleteLastCommits` deletes a blob that the
  parent still uses under another path (`History.OrphanMayStillBeInUse`).
- **Removing the checked-out branch resets to the fork commit.** `reset` then
  registers that commit under the fork's own branch label, which can move
  another branch's head (e.g. "master") back to it.
- **A reset to "master" or to a branch name walks to the root and fails.**
  Such names are not resolved, so the walk never meets its stop id and ends
  with "To long reset".

## Model

| member | source | states |
|---|---|---|
| Staging.Index.constructor | src/main/java/ru/hse/fmcs/MyGitIndex.java:13-17 | a new index has all three collections empty |
| Staging.Index.IsEmpty | src/main/java/ru/hse/fmcs/MyGitIndex.java:19-21 | true exactly when the new files, the modified files and the deleted set are all empty |
| Staging.Index.ContainsName | src/main/java/ru/hse/fmcs/MyGitIndex.java:35-37 | the path is known exactly when it has a staged hash or is staged as deleted |
| Staging.Index.ContainsFile | src/main/java/ru/hse/fmcs/MyGitIndex.java:35-41 | implies `ContainsName`; a staged deletion matches every hash; outside the deleted set a match means `GetFileHash` has a hash |
| Staging.Index.GetFileHash | src/main/java/ru/hse/fmcs/MyGitIndex.java:67-73 | null exactly when neither map has the path; otherwise the new-file hash if there is one, else the modified-file hash |
| Staging.FilesContain | src/main/java/ru/hse/fmcs/MyGitIndex.java:80-82 | a map contains the path with the hash exactly when looking the path up gives that hash |
| Staging.GetFileHashIgnoresDeleted | src/main/java/ru/hse/fmcs/MyGitIndex.java:67-73 | two indexes with the same two maps answer the same hash, whatever their deleted sets |
| Staging.Index.Previous | src/main/java/ru/hse/fmcs/MyGitIndex.java:44-48 | for NEW and MODIFIED, the prior entry of the collection that mode routes to; null for DELETED |
| Staging.Index.Add | src/main/java/ru/hse/fmcs/MyGitIndex.java:43-55 | NEW/MODIFIED update only their own collection and return its prior entry; DELETED adds to the deleted set, evicts from both maps and returns null |
| Staging.Index.Delete | src/main/java/ru/hse/fmcs/MyGitIndex.java:57-65 | removes the path from exactly one collection, deleted set first, then new files, then modified files; the other two are unchanged |
| Staging.Index.Clear | src/main/java/ru/hse/fmcs/MyGitIndex.java:75-78 | both maps become empty; the deleted set is unchanged |
| Commits.Commit.ContainsName | src/main/java/ru/hse/fmcs/MyGitCommit.java:67-69 | the snapshot has an entry for the path, whatever its hash |
| Commits.IsIdChar | src/main/java/ru/hse/fmcs/MyGitCommit.java:23 | an id character lies in the range `'0'..'z'` the generator draws from |
| Commits.ValidId | src/main/java/ru/hse/fmcs/MyGitCommit.java:23 | a 40-character id is never the empty stop id and never contains the `~` of a relative revision |
| Commits.Commit.IsMarker | src/main/java/ru/hse/fmcs/MyGitRepository.java:230 | a marker commit never carries the root's message |
| Commits.Commit.ContainsFile | src/main/java/ru/hse/fmcs/MyGitCommit.java:67-73 | holds exactly when the snapshot maps the path to that hash, and implies `ContainsName` |
| Commits.Snapshot | src/main/java/ru/hse/fmcs/MyGitCommit.java:27-36 | the snapshot has exactly the paths of the base, the new and the modified files that are not staged as deleted |
| Commits.SnapshotAt | src/main/java/ru/hse/fmcs/MyGitCommit.java:27-36 | path by path: present iff not deleted and in the base, new or modified files; modified wins over new, new over the base |
| Commits.SnapshotOfEmptyIndex | src/main/java/ru/hse/fmcs/MyGitCommit.java:27-36 | with nothing staged the snapshot is the parent's |
| Commits.NewCommit | src/main/java/ru/hse/fmcs/MyGitCommit.java:18-37 | id, author, date, message and branch stored as given; parent id null for the root, else the parent's id; files equal the snapshot equation over the parent's files (empty for the root); no deleted path survives |
| Revisions.ParseInt | src/main/java/ru/hse/fmcs/MyGitRepository.java:539 | a parsed value lies in the 32-bit range |
| Revisions.FormatNat | src/main/java/ru/hse/fmcs/MyGitRepository.java:343 | `%d` of a natural is never empty |
| Revisions.FormatNatDigits | src/main/java/ru/hse/fmcs/MyGitRepository.java:343 | `%d` of n is all digits and reads back as n |
| Revisions.ParseFormatRoundTrip | src/main/java/ru/hse/fmcs/MyGitRepository.java:343 | `parseInt(format("%d", n))` is n up to `Integer.MAX_VALUE` and a NumberFormatException beyond it |
| Revisions.RelativeSteps | src/main/java/ru/hse/fmcs/MyGitRepository.java:285 | the number after `HEAD~` lies in the 32-bit range, and an unparsable one is a NumberFormatException |
| Revisions.WalkBound | src/main/java/ru/hse/fmcs/MyGitRepository.java:536-542 | a stop id other than "" comes with unbounded (`MAX_VALUE`) steps |
| Revisions.RelativeArgument | src/main/java/ru/hse/fmcs/MyGitRepository.java:343 | the `HEAD~N` string branchRemove builds reads back as a walk of exactly N steps with no stop id, or as a parse failure past the 32-bit range |
| History.AddChildRanked | src/main/java/ru/hse/fmcs/MyGitRepository.java:513-516 | linking a fresh child under an existing node keeps the parent links acyclic |
| History.Ancestor | src/main/java/ru/hse/fmcs/MyGitRepository.java:357-363 | the id reached by n parent steps, if any, is in the graph |
| History.AncestorStep | src/main/java/ru/hse/fmcs/MyGitRepository.java:359-361 | one more step from the n-th ancestor is the (n+1)-th |
| History.AncestorNoneStays | src/main/java/ru/hse/fmcs/MyGitRepository.java:359-361 | once a step has no parent, no further step count reaches an ancestor |
| History.Chain | src/main/java/ru/hse/fmcs/MyGitRepository.java:227-247 | the history from a node starts with that node and lies in the graph |
| History.ChainIsAncestors | src/main/java/ru/hse/fmcs/MyGitRepository.java:357-363 | the i-th entry of the history is the i-th ancestor, and there is none past its end |
| History.Trail | src/main/java/ru/hse/fmcs/MyGitRepository.java:543-565 | the commit the walk of deleteLastCommits stops on is in the graph |
| History.TrailShape | src/main/java/ru/hse/fmcs/MyGitRepository.java:543-565 | the walk removes consecutive ancestors, never the stop id, at most `steps` of them; it stops on reaching the stop id, on running out of steps or ("To long reset") on a commit with no parent |
| History.TrailRelative | src/main/java/ru/hse/fmcs/MyGitRepository.java:538-546 | `HEAD~N` with an unknown stop id fails exactly when HEAD has no N-th ancestor, and otherwise removes exactly N commits and stops on that ancestor |
| History.OrphanBlobs | src/main/java/ru/hse/fmcs/MyGitRepository.java:548-557 | a commit whose snapshot equals its parent's takes no blob with it |
| History.OrphanBlobsAt | src/main/java/ru/hse/fmcs/MyGitRepository.java:550-557 | a removed commit takes a hash exactly when some path of its snapshot carries it and the parent does not map that path to it |
| History.OrphanMayStillBeInUse | src/main/java/ru/hse/fmcs/MyGitRepository.java:550-557 | a blob the parent still has under another path is collected too |
| History.CollectedBySome | src/main/java/ru/hse/fmcs/MyGitRepository.java:543-565 | every collected blob is collected by one of the removed commits |
| History.CollectedByOne | src/main/java/ru/hse/fmcs/MyGitRepository.java:543-565 | a blob one removed commit collects is collected by the run |
| History.CollectedAt | src/main/java/ru/hse/fmcs/MyGitRepository.java:543-565 | a run of removals collects a hash exactly when one of the removed commits does |
| History.WalkVerdict | src/main/java/ru/hse/fmcs/MyGitRepository.java:535-566 | the walk passes exactly when it does not overrun and every removal succeeds in turn; otherwise it fails with IOFailure, or with "To long reset" after an overrun |
| History.LogWalk | src/main/java/ru/hse/fmcs/MyGitRepository.java:228-247 | every id log prints is a commit of the graph |
| History.LogWalkMeaning | src/main/java/ru/hse/fmcs/MyGitRepository.java:219-248 | log prints, of HEAD's history before the stop id, the first N+1 commits that are not markers; nothing for a negative N |
| History.LogSkipsMarkers | src/main/java/ru/hse/fmcs/MyGitRepository.java:227-246 | no printed commit is a marker or the stop id, and `HEAD~N` prints at most N+1 commits |
| History.LabelRun | src/main/java/ru/hse/fmcs/MyGitRepository.java:339-342 | a count reaches, that many steps back, an existing commit that does not carry the label |
| History.LabelRunMeaning | src/main/java/ru/hse/fmcs/MyGitRepository.java:337-342 | the count is the length of the labelled prefix of the history and the next commit exists unlabelled; without a count the whole history is labelled |
| History.BranchWalkRemovesRun | src/main/java/ru/hse/fmcs/MyGitRepository.java:337-349 | the `HEAD~k` walk from the branch head removes exactly the k labelled commits and stops on the first unlabelled one |
| Repo.Relink | src/main/java/ru/hse/fmcs/MyGitRepository.java:86-94 | one node per stored record; each node is linked to its recorded parent's node exactly when that record was reloaded |
| Repo.Repository.FileHash | src/main/java/ru/hse/fmcs/MyGitRepository.java:370-379 | the content hash of a file of the tree; "" for a missing one |
| Repo.Repository.IsDeletedFile | src/main/java/ru/hse/fmcs/MyGitRepository.java:381-383 | the commit has the path and the working tree does not |
| Repo.Repository.GetFileMode | src/main/java/ru/hse/fmcs/MyGitRepository.java:409-415 | DELETED iff in HEAD's snapshot and not in the tree, MODIFIED iff in both, NEW iff not in the snapshot |
| Repo.Repository.Init | src/main/java/ru/hse/fmcs/MyGitRepository.java:100-128 | the root commit "Initial commit" on "master" holds the whole tree, is HEAD and master's head, its record is persisted; the index is a fresh object that keeps every file as new; no blob is stored |
| Repo.Repository.Reload | src/main/java/ru/hse/fmcs/MyGitRepository.java:81-96 | for a HEAD id that names a stored commit: the graph holds every stored commit relinked as `Relink` states; HEAD and the registry are as persisted; the index is a fresh empty object |
| Repo.Open | src/main/java/ru/hse/fmcs/MyGitRepository.java:81-96 | no usable repository exactly when the HEAD id names no stored commit, so that the current node is null; otherwise a fresh repository whose graph holds every stored commit relinked as `Relink` states, with the persisted HEAD, registry, blobs and records, and a fresh empty (so disjoint) index |
| Repo.Repository.RelativeRevision | src/main/java/ru/hse/fmcs/MyGitRepository.java:357-363 | HEAD for n <= 0, else the n-th ancestor; None where a null parent is dereferenced |
| Repo.Repository.AddFileIfUntracked | src/main/java/ru/hse/fmcs/MyGitRepository.java:385-396 | the path is filed under the first rule that applies: untracked new, removed, untracked modified, or none |
| Repo.Repository.ScanTree | src/main/java/ru/hse/fmcs/MyGitRepository.java:152-181 | untracked new = in the tree, not in the snapshot nor the index; untracked modified = in both with another hash and not staged with the current one; removed = snapshot and staged paths missing from the tree |
| Repo.Repository.Status | src/main/java/ru/hse/fmcs/MyGitRepository.java:146-201 | detached iff HEAD differs from the registered head of the current branch; otherwise the classification of `ScanTree`, and "up to date" iff the index and all three untracked sets are empty |
| Repo.Repository.AddFileToIndex | src/main/java/ru/hse/fmcs/MyGitRepository.java:417-431 | stages under `getFileMode`; deletes the blob of the replaced hash (failing if missing); copies the file into the store if it exists (failing if that blob exists) |
| Repo.Repository.AddPath | src/main/java/ru/hse/fmcs/MyGitRepository.java:203-212 | a path already staged with its content is skipped; afterwards the index holds it with its current content and no other path's entries change; a disjoint index stays disjoint; the only blob it can store is the path's current content |
| Repo.Repository.Add | src/main/java/ru/hse/fmcs/MyGitRepository.java:445-469 | stops at the first failure, with IOFailure; on success every listed path is staged with its current content; either way no unlisted path's entries change, a disjoint index stays disjoint, and the only blobs it can store are the current contents of listed paths |
| Repo.Repository.RmFileFromIndex | src/main/java/ru/hse/fmcs/MyGitRepository.java:433-443 | fails with no staged hash or no such blob, leaving the index alone; else deletes that blob and unstages the path |
| Repo.Repository.RmPath | src/main/java/ru/hse/fmcs/MyGitRepository.java:250-259 | skips a path not staged with its content; a path staged only as deleted fails; a disjoint index stays disjoint |
| Repo.Repository.Rm | src/main/java/ru/hse/fmcs/MyGitRepository.java:250-259 | only ever removes blobs and index entries, so a disjoint index stays disjoint; the only failure is IOFailure |
| Repo.Repository.MakeCommit | src/main/java/ru/hse/fmcs/MyGitRepository.java:504-525 | a child of HEAD with the snapshot equation over the parent becomes HEAD; the registry maps a new name to it, else the parent's branch; the index keeps only deletions, which makes it disjoint; the record is persisted |
| Repo.Repository.Attach | src/main/java/ru/hse/fmcs/MyGitRepository.java:512-518 | the new node is linked under the previous current node and becomes current and HEAD; its record is added |
| Repo.Repository.CommitStaged | src/main/java/ru/hse/fmcs/MyGitRepository.java:214-217 | a commit on the current branch whose registered head moves to it |
| Repo.Repository.BranchCreate | src/main/java/ru/hse/fmcs/MyGitRepository.java:314-318 | a marker commit on the new label; with nothing staged its snapshot is the current commit's |
| Repo.Repository.LogFrom | src/main/java/ru/hse/fmcs/MyGitRepository.java:227-247 | the printed ids are `LogWalk` from HEAD |
| Repo.Repository.Log | src/main/java/ru/hse/fmcs/MyGitRepository.java:219-248 | an unparsable `HEAD~` number is a NumberFormatException; otherwise what `LogWalkMeaning` describes for the revision's bounds |
| Repo.Repository.CollectOrphans | src/main/java/ru/hse/fmcs/MyGitRepository.java:550-557 | succeeds iff every orphan blob is present and no two collected paths share one; on success exactly the orphans are gone; on failure only orphans are gone |
| Repo.Repository.RemoveCurrent | src/main/java/ru/hse/fmcs/MyGitRepository.java:547-562 | succeeds iff the orphans are deletable and the record exists; then both are gone; on failure the record stays |
| Repo.Repository.WalkBack | src/main/java/ru/hse/fmcs/MyGitRepository.java:543-565 | the graph is unchanged; the outcome follows `Trail`: the removals before a failure are done, their blobs and records gone; "To long reset" at the root |
| Repo.Repository.DeleteLastCommits | src/main/java/ru/hse/fmcs/MyGitRepository.java:535-566 | a bad number changes nothing; otherwise the walk of `WalkBack` with the revision's bounds |
| Repo.Repository.Materialize | src/main/java/ru/hse/fmcs/MyGitRepository.java:471-502 | succeeds iff every blob of the snapshot is stored, and then the tree is the snapshot; the tree never holds anything the snapshot does not |
| Repo.Repository.Reset | src/main/java/ru/hse/fmcs/MyGitRepository.java:301-312 | deleteLastCommits; on its failure tree, HEAD and registry stay; otherwise the tree becomes the final commit's snapshot, and HEAD and the registered head of its branch become that commit, unless a blob is missing |
| Repo.Repository.CheckoutTarget | src/main/java/ru/hse/fmcs/MyGitRepository.java:283-289 | `HEAD~N` resolves through the relative walk into the graph; other arguments through `branches.getOrDefault` |
| Repo.Repository.CheckoutRevision | src/main/java/ru/hse/fmcs/MyGitRepository.java:283-296 | a failed resolution or an id not in the graph changes nothing; otherwise the commit becomes current and HEAD, and the tree its snapshot iff all its blobs are stored |
| Repo.Repository.RestoreSource | src/main/java/ru/hse/fmcs/MyGitRepository.java:267-270 | the staged hash if the index has one, else HEAD's snapshot entry; none exactly when neither has the path |
| Repo.Repository.RestoreFile | src/main/java/ru/hse/fmcs/MyGitRepository.java:266-280 | a path with no staged or committed hash is skipped; else its blob is copied over it, failing when missing |
| Repo.Repository.RestorableAt | src/main/java/ru/hse/fmcs/MyGitRepository.java:265-273 | a path is restored iff it is listed and has a staged or committed hash, and then from that hash |
| Repo.Repository.RestorableSnoc | src/main/java/ru/hse/fmcs/MyGitRepository.java:265-273 | one more listed path adds its restore hash, if it has one |
| Repo.Repository.CheckoutFiles | src/main/java/ru/hse/fmcs/MyGitRepository.java:264-281 | succeeds iff every restorable path's blob is stored, and then the tree is overridden with exactly the restorable paths; on failure it stops at a listed path whose blob is missing, the paths before it restored and the rest of the tree untouched |
| Repo.Repository.BranchRun | src/main/java/ru/hse/fmcs/MyGitRepository.java:337-342 | the count is `LabelRun`, and the commit it stops on is that many steps back and not labelled |
| Repo.Repository.BranchRemove | src/main/java/ru/hse/fmcs/MyGitRepository.java:327-355 | "master" and unregistered names are refused with nothing changed; a missing head or a run reaching the root is NullParent; otherwise it succeeds iff the count fits in 32 bits, every removal of the run succeeds in turn and, when the branch is checked out, the fork's blobs survive; other failures are NotANumber or IOFailure; on success the run is removed with its blobs and records, HEAD moves to the fork only when the branch was checked out, and the name leaves the registry |
| Repo.Repository.RemoveRun | src/main/java/ru/hse/fmcs/MyGitRepository.java:335-352 | removes the counted run through reset when the branch is checked out and directly otherwise; succeeds iff the walk does and, through reset, the fork's blobs survive; restores the saved node (or the fork) and drops the name |
| Repo.Repository.DeleteRun | src/main/java/ru/hse/fmcs/MyGitRepository.java:349 | succeeds iff the count fits in 32 bits and every removal succeeds in turn, and then takes exactly the run's blobs and records; HEAD, the tree and the registry stay |
| Repo.Repository.ResetRun | src/main/java/ru/hse/fmcs/MyGitRepository.java:344-347 | succeeds iff the walk does and the fork's blobs survive it; then resets to the fork: its snapshot, HEAD, and its branch's registered head |

## Left out

- The filesystem and I/O are replaced by the tree, blob and record sets: directory streams, `Files.walk` recursion into directories, and `isDirectory` checks.
- JSON persistence (`writeMetainf` and the commit files) is out, and so are its failures. `reset` not writing the metadata is not a step of the model; the state it can leave for the next `init`, a HEAD id with no stored commit, is the None case of `Repo.Open`.
- MD5 hashing is an abstract hash. Ids, dates and user names are parameters. An id is any 40-character `[0-9A-Za-z]` string not yet in the graph, which models random generation without collision.
- All printed output is left out: the log lines, the `printFiles` sorting, and `showBranches` (which only prints).
- `MyGitCli` is left out: it only dispatches commands.
- The RuntimeException/GitException wrapping is left out; each failure is reported as one `Error` kind.
- Repo.Repository.CheckoutRevision: for an id not in the graph the source sets the current node to null before throwing. The model keeps the current node. With a null current node the source's later commands dereference null, as described under `Repo.Repository.Reload` below.
- Repo.Repository.BranchRemove: the source also dereferences null when the registered head is not in the graph, or when the labelled run reaches the root. The model reports `NullParent` and does not describe that state. After a failed reset or deletion the contract names the error and the success condition that failed, but describes the state only by `Valid()`.
- Repo.Repository.Add: the contract bounds the blob store (it gains only current contents of listed paths) but does not give it exactly, since a later path can delete a blob an earlier one stored; `AddPath` gives it exactly per path. On failure the contract states the error kind and that unlisted paths keep their entries, not which of the listed paths were staged.
- Repo.Repository.Reload: `init` on an object that is already a repository merges the reloaded commits into its existing graph and keeps its index; the model always builds a new object. A HEAD id with no stored commit (possible because `reset` does not write the metadata) leaves the source with a null current node; `Repo.Open` reports that as None and the model does not go on from it. In that state `log` prints nothing, `showBranches` still works, and so do `add` and `rm` of paths they skip; the other commands dereference null.
- Repo.Repository.RmFileFromIndex: a path staged with the empty hash (added while missing from the tree) makes the source delete the store directory itself. That passes when the store is empty and then loses the store; the model fails with IOFailure instead. A path staged only as deleted names the blob "null", which no MD5 hash equals, so the model fails there as the source does.
- Repo.Repository.AddFileToIndex: replacing a staged empty hash makes the source delete the store directory in the same way; the model fails with IOFailure when no blob "" is stored.
- Repo.Repository.Materialize: a snapshot entry with the empty hash (a path added while missing) makes the source copy the store directory itself onto the path, which passes and leaves an empty directory there; the model fails with IOFailure, since no blob "" is stored.
- Repo.Repository.RestoreFile: restoring a path whose staged or committed hash is empty copies the store directory onto it in the same way and passes; the model fails.
- Repo.Repository.CollectOrphans: an orphan with the empty hash makes the source delete the store directory itself, which passes when the store is empty and loses it; the model fails with IOFailure.
- Repo.Repository.Rm: the contract states that blobs and index entries only shrink, not each path's exact fate. `RmPath` states that per path.
- Repo.Repository.WalkBack: deleted commits keep their nodes in the in-memory graph; only their records and blobs go. This matches the source, which never removes them from `graph`.
- Revisions.ParseInt: `Integer.parseInt` also accepts non-ASCII Unicode digits; the model accepts ASCII digits only.
- Repo.Repository.BranchRun: the counter `to` is an unbounded natural. The source's 32-bit `int` would wrap only after more than 2^31 commits.
