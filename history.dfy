/**
 * The commit graph of the repository engine: nodes keyed by commit id, each
 * holding its commit and the link to its parent node, and the walks over
 * parent links that `getRelativeRevisionFromHead`, `deleteLastCommits`,
 * `log` and `branchRemove` perform.
 */
module History {
  import opened Types
  import opened Commits

  /**
   * A graph node. `parent` is the in-memory link (None stands for a null
   * Node.parent); it can be None although the commit records a parent id,
   * when that parent's record was not reloaded.
   */
  datatype Node = Node(commit: Commit, parent: Option<CommitId>)

  type Graph = map<CommitId, Node>

  /** Every node is filed under its commit's id and every link points into the graph. */
  predicate Linked(g: Graph)
  {
    forall id :: id in g ==>
      g[id].commit.id == id && (g[id].parent.Some? ==> g[id].parent.value in g)
  }

  /** A rank that strictly decreases along parent links: the links have no cycle. */
  ghost predicate Ranked(g: Graph, rank: map<CommitId, nat>)
  {
    && Linked(g)
    && (forall id :: id in g ==> id in rank)
    && (forall id :: id in g && g[id].parent.Some? ==> rank[g[id].parent.value] < rank[id])
  }

  /** Adding a child of an existing node, ranked above its parent, keeps the graph ranked. */
  lemma AddChildRanked(g: Graph, rank: map<CommitId, nat>, id: CommitId, c: Commit, parent: CommitId)
    requires Ranked(g, rank) && id !in g && parent in g && c.id == id
    ensures Ranked(g[id := Node(c, Some(parent))], rank[id := rank[parent] + 1])
  {
  }

  /** The id reached after `n` parent steps from `id`, or None if a step has no parent. */
  function Ancestor(g: Graph, id: CommitId, n: nat): (r: Option<CommitId>)
    requires Linked(g) && id in g
    ensures r.Some? ==> r.value in g
    decreases n
  {
    if n == 0 then Some(id)
    else match g[id].parent
      case None => None
      case Some(q) => Ancestor(g, q, n - 1)
  }

  /** One more step from the n-th ancestor is the (n+1)-th. */
  lemma {:induction false} AncestorStep(g: Graph, id: CommitId, n: nat)
    requires Linked(g) && id in g
    ensures Ancestor(g, id, n + 1) ==
      match Ancestor(g, id, n)
      case None => None
      case Some(a) => g[a].parent
    decreases n
  {
    if n > 0 {
      match g[id].parent
      case None =>
      case Some(q) => AncestorStep(g, q, n - 1);
    }
  }

  /** Past the root there are no more ancestors. */
  lemma {:induction false} AncestorNoneStays(g: Graph, id: CommitId, n: nat, m: nat)
    requires Linked(g) && id in g
    requires n <= m && Ancestor(g, id, n).None?
    ensures Ancestor(g, id, m).None?
    decreases m - n
  {
    if n < m {
      AncestorStep(g, id, n);
      AncestorNoneStays(g, id, n + 1, m);
    }
  }

  /** The ids from `id` back to the first node without a parent link, in walk order. */
  ghost function Chain(g: Graph, rank: map<CommitId, nat>, id: CommitId): (c: seq<CommitId>)
    requires Ranked(g, rank) && id in g
    ensures |c| > 0 && c[0] == id
    ensures forall i :: 0 <= i < |c| ==> c[i] in g
    decreases rank[id]
  {
    match g[id].parent
    case None => [id]
    case Some(q) => [id] + Chain(g, rank, q)
  }

  /** The chain lists exactly the ancestors, and nothing lies beyond it. */
  lemma {:induction false} ChainIsAncestors(g: Graph, rank: map<CommitId, nat>, id: CommitId)
    requires Ranked(g, rank) && id in g
    ensures var c := Chain(g, rank, id);
      && (forall i :: 0 <= i < |c| ==> Ancestor(g, id, i) == Some(c[i]))
      && Ancestor(g, id, |c|) == None
    decreases rank[id]
  {
    var c := Chain(g, rank, id);
    match g[id].parent
    case None =>
    case Some(q) =>
      ChainIsAncestors(g, rank, q);
      forall i | 0 <= i < |c| ensures Ancestor(g, id, i) == Some(c[i]) {
        if i > 0 {
          assert c[i] == Chain(g, rank, q)[i - 1];
        }
      }
  }

  // ----- deleteLastCommits -------------------------------------------------

  /**
   * The result of walking back from HEAD: the commits left behind (newest
   * first), the commit the walk stopped on, and whether it stopped because a
   * step was asked of a commit without a parent ("To long reset").
   */
  datatype Walk = Walk(removed: seq<CommitId>, last: CommitId, overrun: bool)

  /**
   * The walk of deleteLastCommits: while the current id is not `stopAt` and
   * `steps` is positive, step to the parent (failing if there is none).
   */
  function Trail(g: Graph, at: CommitId, stopAt: string, steps: int): (w: Walk)
    requires Linked(g) && at in g
    ensures w.last in g
    decreases steps
  {
    if stopAt == at || steps <= 0 then Walk([], at, false)
    else match g[at].parent
      case None => Walk([], at, true)
      case Some(q) =>
        var rest := Trail(g, q, stopAt, steps - 1);
        Walk([at] + rest.removed, rest.last, rest.overrun)
  }

  /**
   * What the walk does, without reference to its recursion: it visits
   * consecutive ancestors, never moves off `stopAt`, takes at most `steps`
   * steps, and stops exactly when it reached `stopAt`, ran out of steps, or
   * stood on a commit with no parent.
   */
  lemma {:induction false} TrailShape(g: Graph, at: CommitId, stopAt: string, steps: int)
    requires Linked(g) && at in g
    ensures var w := Trail(g, at, stopAt, steps);
      && (forall i :: 0 <= i < |w.removed| ==> Ancestor(g, at, i) == Some(w.removed[i]))
      && (forall i :: 0 <= i < |w.removed| ==> w.removed[i] != stopAt && g[w.removed[i]].parent.Some?)
      && Ancestor(g, at, |w.removed|) == Some(w.last)
      && (w.removed == [] || |w.removed| <= steps)
      && (!w.overrun ==> w.last == stopAt || |w.removed| >= steps)
      && (w.overrun ==> w.last != stopAt && |w.removed| < steps && g[w.last].parent.None?)
    decreases steps
  {
    var w := Trail(g, at, stopAt, steps);
    if stopAt == at || steps <= 0 {
    } else {
      match g[at].parent
      case None =>
      case Some(q) =>
        TrailShape(g, q, stopAt, steps - 1);
        var rest := Trail(g, q, stopAt, steps - 1);
        assert w.removed == [at] + rest.removed;
        forall i | 0 <= i < |w.removed|
          ensures Ancestor(g, at, i) == Some(w.removed[i])
          ensures w.removed[i] != stopAt && g[w.removed[i]].parent.Some?
        {
          if i > 0 {
            assert w.removed[i] == rest.removed[i - 1];
          }
        }
    }
  }

  /**
   * `HEAD~N` with N >= 0 and a stop id that names no commit: the walk succeeds
   * exactly when HEAD has an N-th ancestor, takes exactly N steps and stops on
   * that ancestor.
   */
  lemma TrailRelative(g: Graph, at: CommitId, stopAt: string, n: nat)
    requires Linked(g) && at in g && stopAt !in g
    ensures var w := Trail(g, at, stopAt, n);
      && (w.overrun <==> Ancestor(g, at, n).None?)
      && (!w.overrun ==> |w.removed| == n && Ancestor(g, at, n) == Some(w.last))
  {
    var w := Trail(g, at, stopAt, n);
    TrailShape(g, at, stopAt, n);
    if w.overrun {
      AncestorStep(g, at, |w.removed|);
      AncestorNoneStays(g, at, |w.removed| + 1, n);
    }
  }

  /**
   * Path `p` of `c` is collected when `c` is removed: `c` maps it to a hash
   * that `parent` does not map that same path to.
   */
  predicate Qualifies(c: Commit, parent: Commit, p: Path)
  {
    p in c.files && c.ContainsFile(p, c.files[p]) && !parent.ContainsFile(p, c.files[p])
  }

  /** The blobs a removed commit takes with it. */
  function OrphanBlobs(c: Commit, parent: Commit): (r: set<Hash>)
    ensures c.files == parent.files ==> r == {}
  {
    set p | p in c.files && Qualifies(c, parent, p) :: c.files[p]
  }

  /**
   * Deleting the orphans one path at a time (Files.delete, which fails on a
   * missing file) succeeds: every collected blob is present and no two
   * collected paths name the same blob.
   */
  predicate OrphansDeletable(c: Commit, parent: Commit, blobs: set<Hash>)
  {
    && (forall p :: p in c.files && Qualifies(c, parent, p) ==> c.files[p] in blobs)
    && (forall p, q :: p in c.files && q in c.files && p != q && Qualifies(c, parent, p) && Qualifies(c, parent, q) ==>
          c.files[p] != c.files[q])
  }

  /** A hash is collected exactly when some path of the commit carries it and the parent differs at that path. */
  lemma OrphanBlobsAt(c: Commit, parent: Commit, h: Hash)
    ensures h in OrphanBlobs(c, parent) <==>
      exists p :: p in c.files && c.files[p] == h && !(p in parent.files && parent.files[p] == h)
  {
  }

  /**
   * The rule is per path: a blob the parent still uses under another path is
   * collected too (the source keeps no reference counts).
   */
  lemma OrphanMayStillBeInUse()
    ensures var parent := Commit("p", "", "", "master", None, 0, map["a" := "h"]);
            var child := Commit("c", "", "", "master", Some("p"), 0, map["a" := "h", "b" := "h"]);
            "h" in OrphanBlobs(child, parent) && "h" in parent.files.Values
  {
    var parent := Commit("p", "", "", "master", None, 0, map["a" := "h"]);
    var child := Commit("c", "", "", "master", Some("p"), 0, map["a" := "h", "b" := "h"]);
    assert "b" in child.files && child.files["b"] == "h" && !parent.ContainsFile("b", "h");
    assert parent.files["a"] == "h";
  }

  /** The blobs collected when the commit `id` is removed (nothing for a commit without parent). */
  function CommitOrphans(g: Graph, id: CommitId): set<Hash>
  {
    if id in g && g[id].parent.Some? && g[id].parent.value in g
    then OrphanBlobs(g[id].commit, g[g[id].parent.value].commit)
    else {}
  }

  /** The blobs collected when every commit of `removed` is removed. */
  function Collected(g: Graph, removed: seq<CommitId>): set<Hash>
  {
    if removed == [] then {}
    else Collected(g, removed[..|removed| - 1]) + CommitOrphans(g, removed[|removed| - 1])
  }

  function Elems(s: seq<CommitId>): set<CommitId>
  {
    set x | x in s
  }

  /**
   * Removing commit `id` succeeds given these blobs and commit records: it
   * has a parent, its orphans can be deleted and its record is present.
   */
  predicate StepOk(g: Graph, id: CommitId, blobs: set<Hash>, records: set<CommitId>)
  {
    && id in g && g[id].parent.Some? && g[id].parent.value in g
    && OrphansDeletable(g[id].commit, g[g[id].parent.value].commit, blobs)
    && id in records
  }

  /** The removal of `removed[i]` succeeds on the state the removals before it left. */
  predicate StepAt(g: Graph, removed: seq<CommitId>, blobs: set<Hash>, records: set<CommitId>, i: nat)
    requires i < |removed|
  {
    StepOk(g, removed[i], blobs - Collected(g, removed[..i]), records - Elems(removed[..i]))
  }

  /** The first `n` removals of `removed` succeed, each on the state the previous ones left. */
  predicate StepsOk(g: Graph, removed: seq<CommitId>, blobs: set<Hash>, records: set<CommitId>, n: nat)
    requires n <= |removed|
  {
    forall i: nat :: i < n ==> StepAt(g, removed, blobs, records, i)
  }

  /** Every removal of `removed` succeeds in turn, starting from these blobs and records. */
  predicate Removable(g: Graph, removed: seq<CommitId>, blobs: set<Hash>, records: set<CommitId>)
  {
    StepsOk(g, removed, blobs, records, |removed|)
  }

  /** Removing one more commit of the walk: the collected blobs and removed records grow by that commit's. */
  lemma RemovalSnoc(g: Graph, removed: seq<CommitId>, i: nat)
    requires i < |removed|
    ensures Collected(g, removed[..i + 1]) == Collected(g, removed[..i]) + CommitOrphans(g, removed[i])
    ensures Elems(removed[..i + 1]) == Elems(removed[..i]) + {removed[i]}
  {
    assert removed[..i + 1][..i] == removed[..i];
    assert removed[..i + 1] == removed[..i] + [removed[i]];
  }

  /** The removals succeed one step further when the next one does. */
  lemma StepsOkSnoc(g: Graph, removed: seq<CommitId>, blobs: set<Hash>, records: set<CommitId>, i: nat)
    requires i < |removed| && StepsOk(g, removed, blobs, records, i)
    requires StepOk(g, removed[i], blobs - Collected(g, removed[..i]), records - Elems(removed[..i]))
    ensures StepsOk(g, removed, blobs, records, i + 1)
  {
    assert StepAt(g, removed, blobs, records, i);
  }

  /** The first `done` removals of the walk `w` succeeded and left these blobs and records. */
  predicate WalkProgress(g: Graph, w: Walk, blobs0: set<Hash>, records0: set<CommitId>,
                         blobs: set<Hash>, records: set<CommitId>, done: nat)
  {
    && done <= |w.removed|
    && StepsOk(g, w.removed, blobs0, records0, done)
    && blobs == blobs0 - Collected(g, w.removed[..done])
    && records == records0 - Elems(w.removed[..done])
  }

  /**
   * The state a walk over `w` leaves, from blobs `blobs0` and records
   * `records0`: of the commits the walk leaves behind, the first `done` were
   * removed (their orphan blobs and their records deleted). Either all were,
   * and the walk passes or overran the root ("To long reset"), or the next one
   * could not be removed and the walk failed part way through collecting it.
   */
  predicate WalkOutcome(g: Graph, w: Walk, blobs0: set<Hash>, records0: set<CommitId>,
                        blobs: set<Hash>, records: set<CommitId>, res: Outcome, done: nat)
  {
    && done <= |w.removed|
    && StepsOk(g, w.removed, blobs0, records0, done)
    && records == records0 - Elems(w.removed[..done])
    && (done < |w.removed| ==>
          && res == Fail(IOFailure)
          && !StepOk(g, w.removed[done], blobs0 - Collected(g, w.removed[..done]), records0 - Elems(w.removed[..done]))
          && blobs0 - Collected(g, w.removed[..done + 1]) <= blobs
          && blobs <= blobs0 - Collected(g, w.removed[..done]))
    && (done == |w.removed| ==>
          && blobs == blobs0 - Collected(g, w.removed)
          && res == if w.overrun then Fail(TooLongReset) else Pass)
  }

  /** Standing on `at` with `k` steps left, the walk `w` has `done` of its removals behind it. */
  predicate OnTrail(g: Graph, at: CommitId, stopAt: string, k: int, w: Walk, done: nat)
    requires Linked(g) && at in g
  {
    done <= |w.removed| && Trail(g, at, stopAt, k) == Walk(w.removed[done..], w.last, w.overrun)
  }

  /** A walk that stands on `at` with the rest `rest` of the removals ahead moves to the parent. */
  lemma TrailAdvance(g: Graph, at: CommitId, stopAt: string, k: int, w: Walk, done: nat)
    requires Linked(g) && at in g && at != stopAt && k > 0 && g[at].parent.Some?
    requires OnTrail(g, at, stopAt, k, w, done)
    ensures done < |w.removed| && w.removed[done] == at
    ensures OnTrail(g, g[at].parent.value, stopAt, k - 1, w, done + 1)
  {
    var rest := Trail(g, g[at].parent.value, stopAt, k - 1);
    assert w.removed[done..] == [at] + rest.removed;
    assert w.removed[done + 1..] == w.removed[done..][1..];
  }

  /** A walk that cannot go on from `at` has no removals left and ends on `at`. */
  lemma TrailHalts(g: Graph, at: CommitId, stopAt: string, k: int, w: Walk, done: nat)
    requires Linked(g) && at in g && (at == stopAt || k <= 0 || g[at].parent.None?)
    requires OnTrail(g, at, stopAt, k, w, done)
    ensures done == |w.removed| && w.removed[..done] == w.removed && w.last == at
    ensures w.overrun <==> at != stopAt && k > 0
  {
  }

  /**
   * When a walk passes: exactly when it did not overrun the root and every
   * commit it leaves behind could be removed in turn; otherwise it failed on
   * a removal or ran past the root.
   */
  lemma WalkVerdict(g: Graph, w: Walk, blobs0: set<Hash>, records0: set<CommitId>,
                    blobs: set<Hash>, records: set<CommitId>, res: Outcome, done: nat)
    requires WalkOutcome(g, w, blobs0, records0, blobs, records, res, done)
    ensures res == Pass <==> !w.overrun && Removable(g, w.removed, blobs0, records0)
    ensures res.Fail? ==> res == Fail(IOFailure) || (w.overrun && res == Fail(TooLongReset))
  {
    if done < |w.removed| {
      assert !StepAt(g, w.removed, blobs0, records0, done);
    }
  }

  /** A walk that passed removed every commit it left behind, and did not overrun the root. */
  lemma WalkPassed(g: Graph, w: Walk, blobs0: set<Hash>, records0: set<CommitId>,
                   blobs: set<Hash>, records: set<CommitId>, done: nat)
    requires WalkOutcome(g, w, blobs0, records0, blobs, records, Pass, done)
    ensures done == |w.removed| && !w.overrun
    ensures blobs == blobs0 - Collected(g, w.removed) && records == records0 - Elems(w.removed)
  {
    assert w.removed[..done] == w.removed;
  }

  /** The walk has removed all it had to: its outcome. */
  lemma WalkFinished(g: Graph, w: Walk, blobs0: set<Hash>, records0: set<CommitId>,
                     blobs: set<Hash>, records: set<CommitId>, done: nat)
    requires done == |w.removed| && WalkProgress(g, w, blobs0, records0, blobs, records, done)
    ensures WalkOutcome(g, w, blobs0, records0, blobs, records, if w.overrun then Fail(TooLongReset) else Pass, done)
  {
    assert w.removed[..done] == w.removed;
  }

  /**
   * One more removal: from the progress after `done` removals, removing
   * `w.removed[done]` either succeeds, giving the progress after `done + 1`,
   * or fails part way, giving the walk's failed outcome.
   */
  lemma WalkStep(g: Graph, w: Walk, blobs0: set<Hash>, records0: set<CommitId>,
                 blobs: set<Hash>, records: set<CommitId>, blobs': set<Hash>, records': set<CommitId>,
                 done: nat, ok: bool)
    requires done < |w.removed| && WalkProgress(g, w, blobs0, records0, blobs, records, done)
    requires var id := w.removed[done];
      && (ok <==> StepOk(g, id, blobs, records))
      && (ok ==> blobs' == blobs - CommitOrphans(g, id) && records' == records - {id})
      && (!ok ==> blobs - CommitOrphans(g, id) <= blobs' <= blobs && records' == records)
    ensures ok ==> WalkProgress(g, w, blobs0, records0, blobs', records', done + 1)
    ensures !ok ==> WalkOutcome(g, w, blobs0, records0, blobs', records', Fail(IOFailure), done)
  {
    RemovalSnoc(g, w.removed, done);
    if ok {
      StepsOkSnoc(g, w.removed, blobs0, records0, done);
    }
  }

  /** A blob collected by a run of removals is collected by one of the removed commits. */
  lemma {:induction false} CollectedBySome(g: Graph, removed: seq<CommitId>, h: Hash)
    requires h in Collected(g, removed)
    ensures exists i :: 0 <= i < |removed| && h in CommitOrphans(g, removed[i])
  {
    var last := |removed| - 1;
    if h in CommitOrphans(g, removed[last]) {
      assert 0 <= last < |removed| && h in CommitOrphans(g, removed[last]);
    } else {
      var init := removed[..last];
      CollectedBySome(g, init, h);
      var i :| 0 <= i < |init| && h in CommitOrphans(g, init[i]);
      assert init[i] == removed[i];
      assert 0 <= i < |removed| && h in CommitOrphans(g, removed[i]);
    }
  }

  /** A blob collected by one of the removed commits is collected by the run. */
  lemma {:induction false} CollectedByOne(g: Graph, removed: seq<CommitId>, i: nat, h: Hash)
    requires i < |removed| && h in CommitOrphans(g, removed[i])
    ensures h in Collected(g, removed)
  {
    var last := |removed| - 1;
    if i < last {
      assert removed[..last][i] == removed[i];
      CollectedByOne(g, removed[..last], i, h);
    }
  }

  /** A blob is collected by a run of removals exactly when one of the removed commits collects it. */
  lemma CollectedAt(g: Graph, removed: seq<CommitId>, h: Hash)
    ensures h in Collected(g, removed) <==> exists i :: 0 <= i < |removed| && h in CommitOrphans(g, removed[i])
  {
    if h in Collected(g, removed) {
      CollectedBySome(g, removed, h);
    }
    if exists i :: 0 <= i < |removed| && h in CommitOrphans(g, removed[i]) {
      var i :| 0 <= i < |removed| && h in CommitOrphans(g, removed[i]);
      CollectedByOne(g, removed, i, h);
    }
  }

  // ----- log ---------------------------------------------------------------

  /**
   * The walk of `log`: from `nd`, until null, the id `stopAt` or a negative
   * counter; marker commits are passed over without using up the counter.
   */
  ghost function LogWalk(g: Graph, rank: map<CommitId, nat>, nd: Option<CommitId>,
                         stopAt: string, count: int): (r: seq<CommitId>)
    requires Ranked(g, rank) && (nd.Some? ==> nd.value in g)
    ensures forall i :: 0 <= i < |r| ==> r[i] in g
    decreases if nd.Some? then rank[nd.value] + 1 else 0
  {
    if nd.None? || nd.value == stopAt || count < 0 then []
    else if g[nd.value].commit.IsMarker() then LogWalk(g, rank, g[nd.value].parent, stopAt, count)
    else [nd.value] + LogWalk(g, rank, g[nd.value].parent, stopAt, count - 1)
  }

  /** The ids of `s` before the first occurrence of `stopAt`. */
  function UpTo(s: seq<CommitId>, stopAt: string): (r: seq<CommitId>)
    ensures |r| <= |s| && r == s[..|r|]
    ensures stopAt !in r
  {
    if s == [] || s[0] == stopAt then [] else [s[0]] + UpTo(s[1..], stopAt)
  }

  /** The ids of `s` whose commits are not marker commits. */
  function NonMarkers(g: Graph, s: seq<CommitId>): seq<CommitId>
    requires forall i :: 0 <= i < |s| ==> s[i] in g
  {
    if s == [] then []
    else if g[s[0]].commit.IsMarker() then NonMarkers(g, s[1..])
    else [s[0]] + NonMarkers(g, s[1..])
  }

  function Take(s: seq<CommitId>, k: nat): seq<CommitId>
  {
    if k < |s| then s[..k] else s
  }

  ghost function ChainFrom(g: Graph, rank: map<CommitId, nat>, nd: Option<CommitId>): (c: seq<CommitId>)
    requires Ranked(g, rank) && (nd.Some? ==> nd.value in g)
    ensures forall i :: 0 <= i < |c| ==> c[i] in g
  {
    if nd.None? then [] else Chain(g, rank, nd.value)
  }

  /**
   * What `log` prints: of HEAD's history up to (not including) `stopAt`, the
   * first `count + 1` commits that are not marker commits; nothing for a
   * negative counter.
   */
  lemma {:induction false} LogWalkMeaning(g: Graph, rank: map<CommitId, nat>, nd: Option<CommitId>,
                                          stopAt: string, count: int)
    requires Ranked(g, rank) && (nd.Some? ==> nd.value in g)
    ensures LogWalk(g, rank, nd, stopAt, count) ==
        if count < 0 then [] else Take(NonMarkers(g, UpTo(ChainFrom(g, rank, nd), stopAt)), count + 1)
    decreases if nd.Some? then rank[nd.value] + 1 else 0
  {
    if nd.None? || count < 0 {
    } else {
      var id := nd.value;
      var c := ChainFrom(g, rank, nd);
      var next := g[id].parent;
      assert c == [id] + ChainFrom(g, rank, next);
      if id == stopAt {
      } else {
        LogWalkMeaning(g, rank, next, stopAt, count);
        LogWalkMeaning(g, rank, next, stopAt, count - 1);
        var rest := UpTo(ChainFrom(g, rank, next), stopAt);
        assert c[1..] == ChainFrom(g, rank, next);
        assert UpTo(c, stopAt) == [id] + rest;
        assert ([id] + rest)[1..] == rest;
      }
    }
  }

  /** `log` prints no marker commit, and for `HEAD~N` at most N + 1 commits. */
  lemma LogSkipsMarkers(g: Graph, rank: map<CommitId, nat>, nd: Option<CommitId>, stopAt: string, count: int)
    requires Ranked(g, rank) && (nd.Some? ==> nd.value in g)
    ensures var r := LogWalk(g, rank, nd, stopAt, count);
      && (forall i :: 0 <= i < |r| ==> r[i] in g && !g[r[i]].commit.IsMarker() && r[i] != stopAt)
      && |r| <= if count < 0 then 0 else count + 1
    decreases if nd.Some? then rank[nd.value] + 1 else 0
  {
    if nd.Some? && nd.value != stopAt && count >= 0 {
      LogSkipsMarkers(g, rank, g[nd.value].parent, stopAt, count);
      LogSkipsMarkers(g, rank, g[nd.value].parent, stopAt, count - 1);
    }
  }

  // ----- branchRemove ------------------------------------------------------

  /**
   * The counting loop of branchRemove: how many consecutive commits from `id`
   * carry the label `name`; None when that run reaches a commit with no
   * parent link (the source dereferences null there).
   */
  ghost function LabelRun(g: Graph, rank: map<CommitId, nat>, id: CommitId, name: string): (r: Option<nat>)
    requires Ranked(g, rank) && id in g
    ensures r.Some? ==> Ancestor(g, id, r.value).Some? && g[Ancestor(g, id, r.value).value].commit.branch != name
    decreases rank[id]
  {
    if g[id].commit.branch != name then Some(0)
    else match g[id].parent
      case None => None
      case Some(q) =>
        match LabelRun(g, rank, q, name)
        case None => None
        case Some(k) => Some(k + 1)
  }

  /**
   * The count is the length of the labelled prefix of the history: the first
   * `k` commits carry the label and the next one exists and does not; when
   * there is no count, every commit down to the end of the chain is labelled.
   */
  lemma {:induction false} LabelRunMeaning(g: Graph, rank: map<CommitId, nat>, id: CommitId, name: string)
    requires Ranked(g, rank) && id in g
    ensures var c := Chain(g, rank, id);
      match LabelRun(g, rank, id, name)
      case Some(k) =>
        k < |c| && g[c[k]].commit.branch != name &&
        forall i :: 0 <= i < k ==> g[c[i]].commit.branch == name
      case None =>
        forall i :: 0 <= i < |c| ==> g[c[i]].commit.branch == name
    decreases rank[id]
  {
    var c := Chain(g, rank, id);
    if g[id].commit.branch != name {
    } else {
      match g[id].parent
      case None =>
      case Some(q) =>
        LabelRunMeaning(g, rank, q, name);
        assert c[1..] == Chain(g, rank, q);
        match LabelRun(g, rank, q, name)
        case None =>
          forall i | 0 <= i < |c| ensures g[c[i]].commit.branch == name {
            if i > 0 { assert c[i] == Chain(g, rank, q)[i - 1]; }
          }
        case Some(k) =>
          forall i | 0 <= i < k + 1 ensures g[c[i]].commit.branch == name {
            if i > 0 { assert c[i] == Chain(g, rank, q)[i - 1]; }
          }
    }
  }

  /**
   * What branchRemove deletes: when the labelled run from `top` has length
   * `k`, the walk of `k` steps back from `top` with no stop id removes exactly
   * the first `k` commits of the history, which are all labelled `name`, and
   * stops on the first commit that is not.
   */
  lemma BranchWalkRemovesRun(g: Graph, rank: map<CommitId, nat>, top: CommitId, name: string, k: nat)
    requires Ranked(g, rank) && top in g && "" !in g
    requires LabelRun(g, rank, top, name) == Some(k)
    ensures var w := Trail(g, top, "", k);
      var c := Chain(g, rank, top);
      && !w.overrun && |w.removed| == k && k < |c|
      && w.removed == c[..k] && w.last == c[k]
      && (forall i :: 0 <= i < k ==> g[w.removed[i]].commit.branch == name)
      && g[w.last].commit.branch != name
  {
    var w := Trail(g, top, "", k);
    var c := Chain(g, rank, top);
    LabelRunMeaning(g, rank, top, name);
    ChainIsAncestors(g, rank, top);
    TrailShape(g, top, "", k);
    TrailRelative(g, top, "", k);
    assert Ancestor(g, top, k) == Some(c[k]);
    assert !w.overrun;
    forall i | 0 <= i < k ensures w.removed[i] == c[i] {
      assert Ancestor(g, top, i) == Some(c[i]);
    }
    assert w.removed == c[..k];
  }
}
