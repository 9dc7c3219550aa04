/** The plan directory as a value: regular files, directories, and the image that a
    recovery manifest promises (crates/mp/src/mutation_txn.rs).

    Paths are relative to the plan root and exclude the transaction root and the lock file. */
module PlanTree {
  import opened Prelude

  type Path = seq<string>
  type Bytes = seq<bv8>

  datatype Tree = Tree(files: map<Path, Bytes>, dirs: set<Path>) {

    /** A directory tree: nothing is both file and directory, and every entry lies in directories. */
    ghost predicate Valid() {
      && files.Keys !! dirs
      && PrefixClosed(files.Keys + dirs, dirs)
    }

    predicate IsEmptyDir(p: Path) {
      p in dirs && forall q :: q in files.Keys + dirs ==> !(p < q)
    }
  }

  /** Every proper, non-empty prefix of an entry is a directory. */
  ghost predicate PrefixClosed(entries: set<Path>, dirs: set<Path>) {
    forall p :: p in entries ==> p != [] && forall i :: 1 <= i < |p| ==> p[..i] in dirs
  }

  /** The directories that a set of files needs. */
  function ParentDirs(entries: set<Path>): set<Path> {
    set p, i | p in entries && 1 <= i < |p| :: p[..i]
  }

  datatype Manifest = Manifest(baseline: set<Path>, directories: set<Path>) {

    /** What collecting a valid tree guarantees. */
    ghost predicate Valid() {
      && baseline !! directories
      && PrefixClosed(baseline + directories, directories)
    }
  }

  /** The before-image: the staged copies of the baseline files. */
  function BeforeImage(m: Manifest, before: map<Path, Bytes>): map<Path, Bytes>
    requires m.baseline <= before.Keys
  {
    map p | p in m.baseline :: before[p]
  }

  /** The tree that restoring from `t` leads to: exactly the baseline files and contents,
      and of the baseline directories those that exist or hold a baseline file. */
  function Restored(m: Manifest, before: map<Path, Bytes>, t: Tree): Tree
    requires m.baseline <= before.Keys
  {
    Tree(BeforeImage(m, before), m.directories * t.dirs + ParentDirs(m.baseline))
  }

  /** A baseline file has become a directory, so that it cannot be rewritten. */
  ghost predicate Conflict(m: Manifest, t: Tree) {
    exists p :: p in m.baseline && p in t.dirs
  }

  lemma ParentDirsAreBaselineDirs(m: Manifest)
    requires m.Valid()
    ensures ParentDirs(m.baseline) <= m.directories
  {
    forall q | q in ParentDirs(m.baseline) ensures q in m.directories {
      var p, i :| p in m.baseline && 1 <= i < |p| && q == p[..i];
      assert p in m.baseline + m.directories;
    }
  }

  lemma RestoredIsValid(m: Manifest, before: map<Path, Bytes>, t: Tree)
    requires m.Valid() && m.baseline <= before.Keys && t.Valid()
    ensures Restored(m, before, t).Valid()
  {
    ParentDirsAreBaselineDirs(m);
    var r := Restored(m, before, t);
    forall p | p in r.files.Keys + r.dirs
      ensures p != [] && forall i :: 1 <= i < |p| ==> p[..i] in r.dirs
    {
      if p in r.files || p in t.dirs {
        assert p in m.baseline + m.directories;
      } else {
        var f, k :| f in m.baseline && 1 <= k < |f| && p == f[..k];
        assert forall i :: 1 <= i < |p| ==> p[..i] == f[..i];
      }
    }
  }

  lemma BaselineIsClosed(m: Manifest, p: Path, q: Path)
    requires m.Valid() && p != [] && p < q
    requires q in m.baseline + m.directories
    ensures p in m.directories
  {
    assert q[..|p|] == p;
  }

  /** A directory outside the baseline holds no baseline file and no baseline directory,
      so that once the deeper ones are gone it is empty. */
  lemma CreatedDirIsEmpty(m: Manifest, t: Tree, created: set<Path>, p: Path)
    requires m.Valid() && t.Valid()
    requires t.files.Keys <= m.baseline && t.dirs - created <= m.directories
    requires created !! m.directories && p in created && p in t.dirs
    requires forall q :: q in created ==> |q| <= |p|
    ensures t.IsEmptyDir(p)
  {
    forall q | q in t.files.Keys + t.dirs ensures !(p < q) {
      if p < q && q !in created {
        BaselineIsClosed(m, p, q);
      }
    }
  }
}
