/**
 * Commits (MyGitCommit): immutable records holding a full path-to-hash
 * snapshot. A new commit's snapshot is its parent's snapshot overlaid with the
 * staged new files, then the staged modified files, minus the staged deletions.
 */
module Commits {
  import opened Types
  import Staging

  /** The message of the root commit written by `init`. */
  const InitialMessage: string := "Initial commit"

  /** The message that tags the marker commit `branch create` writes. */
  const MarkerMessage: string := "New branch"

  /** The length of a commit id. */
  const IdLength: nat := 40

  /** The characters a commit id is drawn from: ASCII digits and letters. */
  predicate IsIdChar(c: char)
    ensures IsIdChar(c) ==> '0' <= c <= 'z'
  {
    ('0' <= c <= '9') || ('A' <= c <= 'Z') || ('a' <= c <= 'z')
  }

  /** The shape of the ids the source draws at random. */
  predicate ValidId(id: string)
    ensures ValidId(id) ==> id != MissingHash && '~' !in id
  {
    |id| == IdLength && forall i :: 0 <= i < |id| ==> IsIdChar(id[i])
  }

  /**
   * A commit. `parent` is the parent's id (null for the root), `date` the
   * creation time and `author` the user name, both supplied by the caller.
   */
  datatype Commit = Commit(
    id: CommitId,
    author: string,
    message: string,
    branch: string,
    parent: Option<CommitId>,
    date: int,
    files: map<Path, Hash>)
  {
    /** The snapshot has an entry for the path. */
    predicate ContainsName(p: Path)
      ensures ContainsName(p) <==> Get(files, p).Some?
    {
      p in files
    }

    /** The snapshot maps the path to exactly this hash. */
    predicate ContainsFile(p: Path, h: Hash)
      ensures ContainsFile(p, h) ==> ContainsName(p)
      ensures ContainsFile(p, h) <==> Get(files, p) == Some(h)
    {
      Staging.FilesContain(files, p, h)
    }

    /** A marker commit written by `branch create`. */
    predicate IsMarker()
      ensures IsMarker() ==> message != InitialMessage
    {
      message == MarkerMessage
    }
  }

  /**
   * The snapshot equation: `base` overlaid by the new files, then by the
   * modified files, with every deleted path removed.
   */
  function Snapshot(base: map<Path, Hash>, newFiles: map<Path, Hash>,
                    modifiedFiles: map<Path, Hash>, deletedFiles: set<Path>): (r: map<Path, Hash>)
    ensures r.Keys == (base.Keys + newFiles.Keys + modifiedFiles.Keys) - deletedFiles
  {
    (base + newFiles + modifiedFiles) - deletedFiles
  }

  /** Path by path: which paths the snapshot has and which hash wins. */
  lemma SnapshotAt(base: map<Path, Hash>, newFiles: map<Path, Hash>,
                   modifiedFiles: map<Path, Hash>, deletedFiles: set<Path>, p: Path)
    ensures var s := Snapshot(base, newFiles, modifiedFiles, deletedFiles);
      && (p in s <==> p !in deletedFiles && (p in base || p in newFiles || p in modifiedFiles))
      && (p in s && p in modifiedFiles ==> s[p] == modifiedFiles[p])
      && (p in s && p !in modifiedFiles && p in newFiles ==> s[p] == newFiles[p])
      && (p in s && p !in modifiedFiles && p !in newFiles ==> s[p] == base[p])
  {
  }

  /** With nothing staged, a commit's snapshot is its parent's. */
  lemma SnapshotOfEmptyIndex(base: map<Path, Hash>)
    ensures Snapshot(base, map[], map[], {}) == base
  {
  }

  /**
   * The MyGitCommit constructor: copies the parent's snapshot (or starts
   * empty for the root), applies the index and records the parent's id.
   */
  method NewCommit(message: string, parent: Option<Commit>, index: Staging.Index,
                   branch: string, id: CommitId, author: string, date: int)
    returns (c: Commit)
    requires ValidId(id)
    ensures c.id == id && c.author == author && c.date == date
    ensures c.message == message && c.branch == branch
    ensures parent.None? ==>
      c.parent == None && c.files == Snapshot(map[], index.newFiles, index.modifiedFiles, index.deletedFiles)
    ensures parent.Some? ==>
      && c.parent == Some(parent.value.id)
      && c.files == Snapshot(parent.value.files, index.newFiles, index.modifiedFiles, index.deletedFiles)
    ensures forall p :: p in index.deletedFiles ==> p !in c.files
  {
    var files: map<Path, Hash> := map[];
    var parentHash: Option<CommitId> := None;
    if parent.Some? {
      parentHash := Some(parent.value.id);
      files := files + parent.value.files;
    }
    files := files + index.newFiles;
    files := files + index.modifiedFiles;
    ghost var overlaid := files;
    var rest := index.deletedFiles;
    while rest != {}
      invariant rest <= index.deletedFiles
      invariant files == overlaid - (index.deletedFiles - rest)
      decreases rest
    {
      var p :| p in rest;
      files := files - {p};
      rest := rest - {p};
    }
    c := Commit(id, author, message, branch, parentHash, date, files);
  }
}
