/**
 Checkpoints of a working tree, and restoring one. Git is reduced to the few verbs used,
 acting on maps from path to content: the working tree, the index, commits and refs.

 A path is visible to a snapshot when the current `HEAD` tracks it or it is not ignored;
 everything below is exact in terms of visibility.
 */
module Checkpoint {
  import opened Prelude

  type Path = string
  type Content = string
  type Tree = map<Path, Content>

  datatype Commit = Commit(tree: Tree, parent: Option<nat>)

  datatype Captured = Captured(ref: string, commit: nat, tree: Tree, parentCommit: Option<nat>)

  datatype CheckpointError = CheckpointMissing

  predicate Visible(head: Tree, ignored: set<Path>, p: Path) {
    p in head || p !in ignored
  }

  /** What `git add -A` stages into an index seeded from `HEAD`: tracked paths and untracked ones not ignored. */
  function Snapshot(work: Tree, head: Tree, ignored: set<Path>): Tree {
    map p | p in work && Visible(head, ignored, p) :: work[p]
  }

  /** `read-tree -u --reset`: drop from disk what the old index held and the new tree does not, then write the tree. */
  function Checkout(work: Tree, index: Tree, tree: Tree): Tree {
    (work - (index.Keys - tree.Keys)) + tree
  }

  /** The working tree after restoring `tree`: the index first holds a snapshot of what is there now. */
  function Restored(work: Tree, head: Tree, ignored: set<Path>, tree: Tree): Tree {
    Checkout(work, Snapshot(work, head, ignored), tree)
  }

  predicate Differs(a: Tree, b: Tree, p: Path) {
    (p in a) != (p in b) || (p in a && p in b && a[p] != b[p])
  }

  function DiffPaths(a: Tree, b: Tree): set<Path> {
    set p | p in a.Keys + b.Keys && Differs(a, b, p)
  }

  datatype Change = Added(path: Path) | Modified(path: Path) | Deleted(path: Path)

  /** `git diff --name-status --no-renames a b`. */
  function NameStatus(a: Tree, b: Tree): set<Change> {
    (set p | p in b.Keys - a.Keys :: Added(p))
    + (set p | p in a.Keys * b.Keys && a[p] != b[p] :: Modified(p))
    + (set p | p in a.Keys - b.Keys :: Deleted(p))
  }

  class Repository {
    var work: Tree
    var index: Tree
    var head: Option<nat>
    var refs: map<string, nat>
    var commits: map<nat, Commit>
    const ignored: set<Path>

    ghost predicate Valid() reads this {
      && (head.Some? ==> head.value in commits)
      && (forall r :: r in refs ==> refs[r] in commits)
    }

    constructor (work: Tree, ignored: set<Path>)
      ensures Valid() && this.work == work && this.ignored == ignored
      ensures index == map[] && head.None? && refs == map[] && commits == map[]
    {
      this.work, this.ignored := work, ignored;
      index, head, refs, commits := map[], None, map[], map[];
    }

    function HeadTree(): Tree
      requires Valid()
      reads this
    {
      if head.None? then map[] else commits[head.value].tree
    }

    /** `git add -A` into `temporary`, an index that is not the repository's. */
    method AddAll(temporary: Tree) returns (staged: Tree)
      ensures staged == map p | p in work && (p in temporary || p !in ignored) :: work[p]
    {
      staged := map p | p in work && (p in temporary || p !in ignored) :: work[p];
    }

    method CommitTree(tree: Tree, parent: Option<nat>, id: nat)
      requires Valid() && id !in commits
      modifies this`commits
      ensures Valid() && commits == old(commits)[id := Commit(tree, parent)]
    {
      commits := commits[id := Commit(tree, parent)];
    }

    /**
     Snapshot the working tree into a commit on a ref of its own. Nothing the user can see
     changes: not the working tree, not the index, not `HEAD`, no other ref, no existing commit.
     `id` stands for the hash git gives the commit.
     */
    method CaptureCheckpoint(ref: string, id: nat) returns (c: Captured)
      requires Valid() && id !in commits
      modifies this`refs, this`commits
      ensures Valid()
      ensures c == Captured(ref, id, Snapshot(work, old(HeadTree()), ignored), head)
      ensures commits == old(commits)[id := Commit(c.tree, head)]
      ensures refs == old(refs)[ref := id]
      ensures HeadTree() == old(HeadTree())
    {
      var temporary: Tree := map[];
      if head.Some? {
        temporary := commits[head.value].tree;
      }
      var tree := AddAll(temporary);
      CommitTree(tree, head, id);
      refs := refs[ref := id];
      c := Captured(ref, id, tree, head);
    }

    /** What restoring would change, from a transient capture whose ref does not outlive the call. */
    method DiffAgainstCheckpoint(commit: nat, ref: string, id: nat) returns (r: Result<set<Change>, CheckpointError>)
      requires Valid() && id !in commits && ref !in refs
      modifies this`refs, this`commits
      ensures Valid() && refs == old(refs) && HeadTree() == old(HeadTree())
      ensures r.Success? <==> commit in old(commits)
      ensures r.Success? ==> r.value == NameStatus(Snapshot(work, HeadTree(), ignored), old(commits)[commit].tree)
    {
      if commit !in commits {
        return Failure(CheckpointMissing);
      }
      var current := CaptureCheckpoint(ref, id);
      var changes := NameStatus(current.tree, commits[commit].tree);
      refs := refs - {ref};
      return Success(changes);
    }

    /** `read-tree --reset`: the index alone. */
    method ReadTree(tree: Tree)
      modifies this`index
      ensures index == tree
    {
      index := tree;
    }

    /** `read-tree -u --reset`: index and working tree. */
    method ReadTreeUpdate(tree: Tree)
      modifies this`index, this`work
      ensures index == tree && work == Checkout(old(work), old(index), tree)
    {
      work := Checkout(work, index, tree);
      index := tree;
    }

    /** Restore a checkpoint's tree, preserving the present state in a checkpoint of its own first. */
    method RestoreCheckpointTree(commit: nat, preservationRef: string, id: nat)
      returns (r: Result<(Captured, set<Path>), CheckpointError>)
      requires Valid() && id !in commits
      modifies this
      ensures Valid() && head == old(head) && HeadTree() == old(HeadTree())
      ensures r.Failure? <==> commit !in old(commits)
      ensures r.Failure? ==> work == old(work) && index == old(index) && refs == old(refs) && commits == old(commits)
      ensures r.Success? ==>
                var tree := old(commits)[commit].tree; var (preservation, changed) := r.value;
                && work == Restored(old(work), HeadTree(), ignored, tree)
                && index == tree
                && preservation.tree == Snapshot(old(work), HeadTree(), ignored)
                && commits == old(commits)[id := Commit(preservation.tree, head)]
                && refs == old(refs)[preservationRef := id] && preservation.commit == id
                && changed == DiffPaths(preservation.tree, tree)
    {
      if commit !in commits {
        return Failure(CheckpointMissing);
      }
      var tree := commits[commit].tree;
      var preservation := CaptureCheckpoint(preservationRef, id);
      var changed := DiffPaths(preservation.tree, tree);
      ReadTree(preservation.tree);
      ReadTreeUpdate(tree);
      return Success((preservation, changed));
    }

    /**
     Restore and then restore what was preserved. The working tree is back exactly when the
     checkpoint held no ignored untracked file that differed from what was there; no existing
     commit is lost either way.
     */
    method RestoreAndUndo(commit: nat, ref1: string, id1: nat, ref2: string, id2: nat)
      requires Valid() && commit in commits && id1 !in commits && id2 !in commits && id1 != id2
      modifies this
      ensures Valid()
      ensures work == old(work) <==>
                (var tree := old(commits)[commit].tree;
                 forall p :: p in tree && !Visible(HeadTree(), ignored, p) ==> !Differs(old(work), tree, p))
      ensures commits.Keys == old(commits.Keys) + {id1, id2} && forall c :: c in old(commits) ==> commits[c] == old(commits)[c]
    {
      ghost var before, head0, tree := work, HeadTree(), commits[commit].tree;
      var first := RestoreCheckpointTree(commit, ref1, id1);
      var second := RestoreCheckpointTree(id1, ref2, id2);
      UndoExactlyWhenNothingHiddenChanged(before, head0, ignored, tree);
    }
  }

  /** All paths of the tree are ones a snapshot under this `HEAD` can see. */
  ghost predicate AllVisible(tree: Tree, head: Tree, ignored: set<Path>) {
    forall p :: p in tree ==> Visible(head, ignored, p)
  }

  /** A snapshot holds every file on disk that is tracked or not ignored, as it is there, and nothing else. */
  lemma SnapshotHolds(work: Tree, head: Tree, ignored: set<Path>, p: Path)
    ensures p in Snapshot(work, head, ignored) <==> p in work && (p in head || p !in ignored)
    ensures p in Snapshot(work, head, ignored) ==> Snapshot(work, head, ignored)[p] == work[p]
  {
  }

  /** A restore writes every file of the checkpoint, removes the other visible ones, and leaves the rest. */
  lemma RestoreHolds(work: Tree, head: Tree, ignored: set<Path>, tree: Tree, p: Path)
    ensures var after := Restored(work, head, ignored, tree);
            if p in tree then p in after && after[p] == tree[p]
            else if p in head || p !in ignored then p !in after
            else (p in after <==> p in work) && (p in work ==> after[p] == work[p])
  {
  }

  /** A checkpoint captured under the same `HEAD` and ignore rules holds visible paths only. */
  lemma CaptureIsVisible(work: Tree, head: Tree, ignored: set<Path>)
    ensures AllVisible(Snapshot(work, head, ignored), head, ignored)
  {
  }

  /** A fresh snapshot after a restore is the checkpoint itself exactly when the checkpoint holds visible paths only. */
  lemma RestoreReachesTheCheckpoint(work: Tree, head: Tree, ignored: set<Path>, tree: Tree)
    ensures Snapshot(Restored(work, head, ignored, tree), head, ignored) == tree <==> AllVisible(tree, head, ignored)
  {
  }

  /** Ignored untracked files are left alone, except one the checkpoint itself holds, which it overwrites. */
  lemma InvisibleFilesAreUntouched(work: Tree, head: Tree, ignored: set<Path>, tree: Tree, p: Path)
    requires !Visible(head, ignored, p)
    ensures Differs(work, Restored(work, head, ignored, tree), p) <==> p in tree && Differs(work, tree, p)
  {
  }

  /** It gives the tree back exactly when the checkpoint held no ignored untracked file that differed from what was there. */
  lemma UndoExactlyWhenNothingHiddenChanged(work: Tree, head: Tree, ignored: set<Path>, tree: Tree)
    ensures Restored(Restored(work, head, ignored, tree), head, ignored, Snapshot(work, head, ignored)) == work
       <==> forall p :: p in tree && !Visible(head, ignored, p) ==> !Differs(work, tree, p)
  {
    var kept := Snapshot(work, head, ignored);
    var there := Restored(work, head, ignored, tree);
    var back := Restored(there, head, ignored, kept);
    forall p ensures Differs(work, back, p) <==> p in tree && !Visible(head, ignored, p) && Differs(work, tree, p) {
      if !Visible(head, ignored, p) {
        InvisibleFilesAreUntouched(work, head, ignored, tree, p);
        InvisibleFilesAreUntouched(there, head, ignored, kept, p);
      } else {
        assert p in there ==> p in Snapshot(there, head, ignored);
        assert p in work ==> p in kept;
      }
    }
    SameWhereNothingDiffers(work, back);
  }

  lemma SameWhereNothingDiffers(a: Tree, b: Tree)
    ensures a == b <==> forall p :: !Differs(a, b, p)
  {
    if forall p :: !Differs(a, b, p) {
      forall p ensures p in a <==> p in b {
        assert !Differs(a, b, p);
      }
      forall p | p in a ensures a[p] == b[p] {
        assert !Differs(a, b, p);
      }
    }
  }

  /** The reported paths are exactly the files the restore changed on disk. */
  lemma ReportedPathsAreTheChangedOnes(work: Tree, head: Tree, ignored: set<Path>, tree: Tree)
    requires AllVisible(tree, head, ignored)
    ensures DiffPaths(Snapshot(work, head, ignored), tree) == DiffPaths(work, Restored(work, head, ignored, tree))
  {
  }

  /** The name-status diff names exactly the paths that differ, each under the right letter. */
  lemma NameStatusIsTheDifference(a: Tree, b: Tree, p: Path)
    ensures Added(p) in NameStatus(a, b) <==> p !in a && p in b
    ensures Deleted(p) in NameStatus(a, b) <==> p in a && p !in b
    ensures Modified(p) in NameStatus(a, b) <==> p in a && p in b && a[p] != b[p]
    ensures p in DiffPaths(a, b) <==> exists c :: c in NameStatus(a, b) && c.path == p
  {
  }

  /**
   Without the first `read-tree` the restore starts from the repository's own index. It
   then reaches the checkpoint exactly when that index already holds every visible file
   that is to go: a new untracked file would be left behind.
   */
  lemma SeedingTheIndexMatters(work: Tree, index: Tree, head: Tree, ignored: set<Path>, tree: Tree)
    requires AllVisible(tree, head, ignored)
    ensures Snapshot(Checkout(work, index, tree), head, ignored) == tree
       <==> Snapshot(work, head, ignored).Keys - tree.Keys <= index.Keys
  {
  }

  /** A concrete case: a file created since the checkpoint, not staged, survives the unseeded restore. */
  lemma UnseededRestoreLeavesNewFiles()
    ensures Snapshot(Checkout(map["new" := "x"], map[], map[]), map[], {}) != map[]
    ensures Snapshot(Restored(map["new" := "x"], map[], {}, map[]), map[], {}) == map[]
  {
    assert "new" in Snapshot(Checkout(map["new" := "x"], map[], map[]), map[], {});
  }
}
