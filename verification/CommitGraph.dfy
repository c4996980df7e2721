/** The commit graph of a repository, and the breadth-first ancestor search. */
module CommitGraph {
  import opened Common

  type Hash = string

  /** The commits that are present, each with its parents. */
  type Objects = map<Hash, seq<Hash>>

  /** A chain of parent links from `from` to `to`. */
  predicate IsPath(objects: Objects, from: Hash, to: Hash, path: seq<Hash>) {
    && path != [] && path[0] == from && Last(path) == to
    && forall i :: 0 <= i < |path| - 1 ==> path[i] in objects && path[i + 1] in objects[path[i]]
  }

  ghost predicate Reachable(objects: Objects, from: Hash, to: Hash) {
    exists path :: IsPath(objects, from, to, path)
  }

  lemma ReachStep(objects: Objects, from: Hash, via: Hash, to: Hash)
    requires Reachable(objects, from, via) && via in objects && to in objects[via]
    ensures Reachable(objects, from, to)
  {
    var path :| IsPath(objects, from, via, path);
    assert IsPath(objects, from, to, path + [to]);
  }

  lemma ReachTransitive(objects: Objects, a: Hash, b: Hash, c: Hash)
    requires Reachable(objects, a, b) && Reachable(objects, b, c)
    ensures Reachable(objects, a, c)
  {
    var p :| IsPath(objects, a, b, p);
    var q :| IsPath(objects, b, c, q);
    var r := p + q[1..];
    forall i | 0 <= i < |r| - 1 ensures r[i] in objects && r[i + 1] in objects[r[i]] {
      if i >= |p| - 1 {
        assert r[i] == q[i - (|p| - 1)] && r[i + 1] == q[i + 1 - (|p| - 1)];
      }
    }
    assert IsPath(objects, a, c, r);
  }

  /** A set of commits that contains the start and the parents of its members contains everything
      reachable. */
  lemma {:induction false} ClosedContains(objects: Objects, closed: set<Hash>, from: Hash, to: Hash, path: seq<Hash>)
    requires IsPath(objects, from, to, path) && from in closed
    requires forall h :: h in closed && h in objects ==> forall p :: p in objects[h] ==> p in closed
    ensures to in closed
    decreases |path|
  {
    if |path| > 1 {
      ClosedContains(objects, closed, path[1], to, path[1..]);
    }
  }

  /** Searches for `a` from `b` towards older commits. `Ok` tells exactly whether `a` is reachable; an
      error names a commit that is reachable but missing. */
  method IsAncestor(objects: Objects, a: Hash, b: Hash) returns (r: Result<bool, Hash>)
    ensures r.Ok? ==> (r.value <==> Reachable(objects, b, a))
    ensures r.Err? ==> Reachable(objects, b, r.error) && r.error !in objects
  {
    assert IsPath(objects, b, b, [b]);
    if a == b {
      return Ok(true);
    }
    var seen: set<Hash> := {};
    var queue := [b];
    while queue != []
      invariant seen <= objects.Keys && a !in seen
      invariant forall h :: h in queue ==> Reachable(objects, b, h)
      invariant forall h :: h in seen ==> Reachable(objects, b, h)
      invariant b in seen || b in queue
      invariant forall h, p :: h in seen && p in objects[h] ==> p in seen || p in queue
      decreases objects.Keys - seen, |queue|
    {
      var h := queue[0];
      var rest := queue[1..];
      assert queue == [h] + rest;
      if h == a {
        return Ok(true);
      }
      if h in seen {
        queue := rest;
        continue;
      }
      if h !in objects {
        return Err(h);
      }
      forall p | p in objects[h] ensures Reachable(objects, b, p) {
        ReachStep(objects, b, h, p);
      }
      seen := seen + {h};
      queue := rest + objects[h];
    }
    if Reachable(objects, b, a) {
      var path :| IsPath(objects, b, a, path);
      ClosedContains(objects, seen, b, a, path);
    }
    return Ok(false);
  }

  /** Successive heads of a branch that only moves forward: each is a descendant of the one before. */
  ghost predicate MovesForward(objects: Objects, log: seq<Hash>) {
    forall k :: 0 < k < |log| ==> Reachable(objects, log[k], log[k - 1])
  }

  lemma {:induction false} LaterReachesEarlier(objects: Objects, log: seq<Hash>, i: nat, j: nat)
    requires MovesForward(objects, log) && i <= j < |log|
    ensures Reachable(objects, log[j], log[i])
    decreases j
  {
    if i == j {
      assert IsPath(objects, log[i], log[i], [log[i]]);
    } else {
      LaterReachesEarlier(objects, log, i, j - 1);
      ReachTransitive(objects, log[j], log[j - 1], log[i]);
    }
  }

  datatype SyncError = Diverged

  /** Fast-forwards or hard-resets the worktree to the tracking ref. An error of the ancestor search
      counts as "no fast-forward". */
  method SyncWithRemote(objects: Objects, local: Hash, tracking: Hash, hardReset: bool)
    returns (worktree: Result<Hash, SyncError>)
    ensures worktree.Ok? ==> worktree.value == tracking
    ensures hardReset ==> worktree.Ok?
    ensures !hardReset && worktree.Ok? ==> Reachable(objects, tracking, local)
    ensures Reachable(objects, tracking, local) && (forall h :: Reachable(objects, tracking, h) ==> h in objects) ==>
              worktree.Ok?
  {
    var fastForward := IsAncestor(objects, local, tracking);
    if fastForward == Ok(true) {
      return Ok(tracking);
    }
    if hardReset {
      return Ok(tracking);
    }
    return Err(Diverged);
  }
}
