/**
 * The staging index (MyGitIndex): the pending changes between HEAD and the
 * next commit, kept in three path-keyed collections that `add`, `delete`
 * and `clear` update in place.
 *
 * The rules are asymmetric: only staging a deletion evicts the
 * path from the other two collections, `delete` unstages from one collection
 * only, and `clear` keeps the staged deletions.
 */
module Staging {
  import opened Types

  class Index {
    var newFiles: map<Path, Hash>
    var modifiedFiles: map<Path, Hash>
    var deletedFiles: set<Path>

    constructor ()
      ensures newFiles == map[] && modifiedFiles == map[] && deletedFiles == {}
    {
      newFiles := map[];
      modifiedFiles := map[];
      deletedFiles := {};
    }

    /** No change of any kind is staged. */
    predicate IsEmpty()
      reads this
      ensures IsEmpty() <==> newFiles == map[] && modifiedFiles == map[] && deletedFiles == {}
    {
      |newFiles| == 0 && |modifiedFiles| == 0 && |deletedFiles| == 0
    }

    /** The path is staged in some collection. */
    predicate ContainsName(p: Path)
      reads this
      ensures ContainsName(p) <==> GetFileHash(p).Some? || p in deletedFiles
    {
      p in newFiles || p in modifiedFiles || p in deletedFiles
    }

    /**
     * The path is staged with this content hash, or staged as deleted
     * (a staged deletion matches every hash).
     */
    predicate ContainsFile(p: Path, h: Hash)
      reads this
      ensures ContainsFile(p, h) ==> ContainsName(p)
      ensures p in deletedFiles ==> ContainsFile(p, h)
      ensures p !in deletedFiles && ContainsFile(p, h) ==> GetFileHash(p).Some?
    {
      FilesContain(newFiles, p, h) || FilesContain(modifiedFiles, p, h) || p in deletedFiles
    }

    /**
     * The staged content hash of the path: the new-file entry first, then the
     * modified-file entry; staged deletions are never consulted.
     */
    function GetFileHash(p: Path): (r: Option<Hash>)
      reads this
      ensures r.None? <==> p !in newFiles && p !in modifiedFiles
      ensures p in newFiles ==> r == Some(newFiles[p])
      ensures p !in newFiles && p in modifiedFiles ==> r == Some(modifiedFiles[p])
    {
      if p in newFiles then Get(newFiles, p) else Get(modifiedFiles, p)
    }

    /** The hash the collection that `mode` routes to holds for `p` (null for DELETED). */
    function Previous(p: Path, mode: FileMode): (r: Option<Hash>)
      reads this
      ensures r.Some? ==> mode != Deleted
      ensures mode == New ==> r == Get(newFiles, p)
      ensures mode == Modified ==> r == Get(modifiedFiles, p)
    {
      match mode
      case New => Get(newFiles, p)
      case Modified => Get(modifiedFiles, p)
      case Deleted => None
    }

    /**
     * Stages `p` with hash `h`. NEW and MODIFIED put into their own collection
     * only and return the hash that collection held for `p` before; DELETED
     * records the path as deleted, evicts it from the other two and returns null.
     */
    method Add(p: Path, h: Hash, mode: FileMode) returns (prev: Option<Hash>)
      modifies this
      ensures StagedAs(this, p, h, mode)
      ensures prev == old(Previous(p, mode))
    {
      prev := None;
      if mode == New {
        prev := Get(newFiles, p);
        newFiles := newFiles[p := h];
      } else if mode == Modified {
        prev := Get(modifiedFiles, p);
        modifiedFiles := modifiedFiles[p := h];
      } else {
        deletedFiles := deletedFiles + {p};
        newFiles := newFiles - {p};
        modifiedFiles := modifiedFiles - {p};
      }
    }

    /**
     * Unstages `p` from exactly one collection: the deleted set if it is
     * there, else the new files, else the modified files.
     */
    method Delete(p: Path)
      modifies this
      ensures Unstaged(this, p)
    {
      if p in deletedFiles {
        deletedFiles := deletedFiles - {p};
      } else if p in newFiles {
        newFiles := newFiles - {p};
      } else {
        modifiedFiles := modifiedFiles - {p};
      }
    }

    /** Empties the new and modified files; staged deletions survive. */
    method Clear()
      modifies this
      ensures newFiles == map[] && modifiedFiles == map[]
      ensures deletedFiles == old(deletedFiles)
    {
      newFiles := map[];
      modifiedFiles := map[];
    }
  }

  /**
   * The collections of `idx` after staging `p` with `h` in `mode`: only the
   * collection `mode` names changes for NEW and MODIFIED; DELETED adds `p` to
   * the deleted set and removes it from both maps.
   */
  twostate predicate StagedAs(idx: Index, p: Path, h: Hash, mode: FileMode)
    reads idx
  {
    match mode
    case New =>
      && idx.newFiles == old(idx.newFiles)[p := h]
      && idx.modifiedFiles == old(idx.modifiedFiles) && idx.deletedFiles == old(idx.deletedFiles)
    case Modified =>
      && idx.modifiedFiles == old(idx.modifiedFiles)[p := h]
      && idx.newFiles == old(idx.newFiles) && idx.deletedFiles == old(idx.deletedFiles)
    case Deleted =>
      && idx.deletedFiles == old(idx.deletedFiles) + {p}
      && idx.newFiles == old(idx.newFiles) - {p}
      && idx.modifiedFiles == old(idx.modifiedFiles) - {p}
  }

  /**
   * The collections of `idx` after unstaging `p`: removed from the deleted
   * set if it was there, else from the new files if it was there, else from
   * the modified files; the other two collections are unchanged.
   */
  twostate predicate Unstaged(idx: Index, p: Path)
    reads idx
  {
    if p in old(idx.deletedFiles) then
      && idx.deletedFiles == old(idx.deletedFiles) - {p}
      && idx.newFiles == old(idx.newFiles) && idx.modifiedFiles == old(idx.modifiedFiles)
    else if p in old(idx.newFiles) then
      && idx.newFiles == old(idx.newFiles) - {p}
      && idx.modifiedFiles == old(idx.modifiedFiles) && idx.deletedFiles == old(idx.deletedFiles)
    else
      && idx.modifiedFiles == old(idx.modifiedFiles) - {p}
      && idx.newFiles == old(idx.newFiles) && idx.deletedFiles == old(idx.deletedFiles)
  }

  /** `files` maps `p` to exactly `h`. */
  predicate FilesContain(files: map<Path, Hash>, p: Path, h: Hash)
    ensures FilesContain(files, p, h) <==> Get(files, p) == Some(h)
  {
    p in files && files[p] == h
  }

  /** Which hash an index answers for a path depends on the new and modified files only. */
  lemma GetFileHashIgnoresDeleted(a: Index, b: Index, p: Path)
    requires a.newFiles == b.newFiles && a.modifiedFiles == b.modifiedFiles
    ensures a.GetFileHash(p) == b.GetFileHash(p)
  {
  }
}
