/**
 * Shared vocabulary of the MyGit model: paths, content hashes, commit ids,
 * the optional value that stands for Java's null, and the error kinds the
 * repository engine raises.
 */
module Types {

  /** A working-tree path (file name relative to the repository directory). */
  type Path = string

  /** A content hash (the MD5 hex digest of a file, or "" for a missing path). */
  type Hash = string

  /** A commit identifier. */
  type CommitId = string

  /** The hash the source reports for a path that does not exist. */
  const MissingHash: Hash := ""

  /** A value or Java's null. */
  datatype Option<+T> = None | Some(value: T)

  /** Why an operation of the repository engine stopped. */
  datatype Error =
    | NotANumber          // Integer.parseInt rejected the text after "HEAD~"
    | NullParent          // a walk dereferenced the parent of a commit that has none
    | TooLongReset        // deleteLastCommits reached a commit with no parent
    | UnknownCommit       // checkout resolved to an id that is not in the graph
    | CannotRemoveMaster  // branchRemove was asked to remove "master"
    | NoSuchBranch        // branchRemove was given an unregistered name
    | IOFailure           // copying or deleting a blob failed

  /** The outcome of an operation that returns nothing on success. */
  datatype Outcome = Pass | Fail(error: Error)

  /** The outcome of an operation that returns a value on success. */
  datatype Result<+T> = Success(value: T) | Failure(error: Error)

  /** Java's `Map.get`: the value stored under `k`, or null. */
  function Get<K, V>(m: map<K, V>, k: K): (r: Option<V>)
    ensures r.Some? <==> k in m
    ensures r.Some? ==> m[k] == r.value
  {
    if k in m then Some(m[k]) else None
  }

  /** The three ways `add` can stage a path. */
  datatype FileMode = New | Modified | Deleted

  /** Overriding with an updated map is updating the override. */
  lemma OverrideUpdate<K, V>(a: map<K, V>, b: map<K, V>, k: K, v: V)
    ensures (a + b)[k := v] == a + b[k := v]
  {
  }
}
