/** Mirroring, deploying and checking skill trees (crates/mp/src/install.rs). Trees are
    values without symbolic links; a method returns the tree it leaves at its destination. */
module SkillDeploy {
  import opened Prelude

  type Bytes = seq<bv8>

  datatype Node = File(bytes: Bytes) | Dir(entries: map<string, Node>)

  // ---------- The skip filter ----------

  const SKILL_DEPLOY_SKIP: set<string> := {"manifest.json", ".DS_Store", "Thumbs.db", "desktop.ini"}
  const SKILL_DEPLOY_SKIP_SUFFIX: seq<string> := [".swp", ".swo", "~"]

  function LowerAscii(c: char): char {
    if 'A' <= c <= 'Z' then c + 32 as char else c
  }

  predicate EndsWithIgnoreCase(name: string, suffix: string) {
    |suffix| <= |name| &&
    forall i :: 0 <= i < |suffix| ==> LowerAscii(name[|name| - |suffix| + i]) == LowerAscii(suffix[i])
  }

  /** is_skill_deploy_skipped */
  predicate Skipped(name: string) {
    || "." <= name
    || name in SKILL_DEPLOY_SKIP
    || exists k :: 0 <= k < |SKILL_DEPLOY_SKIP_SUFFIX| && EndsWithIgnoreCase(name, SKILL_DEPLOY_SKIP_SUFFIX[k])
  }

  function Lowered(s: string): (r: string)
    ensures |r| == |s|
  {
    seq(|s|, i requires 0 <= i < |s| => LowerAscii(s[i]))
  }

  ghost predicate EndsIn(s: string, suffix: string) {
    exists stem :: s == stem + suffix
  }

  /** What is left out: dotfiles, four names as they are written, and swap and backup files by
      their last characters, whatever the case. */
  lemma SkippedIff(name: string)
    ensures Skipped(name) <==>
      || (exists rest :: name == "." + rest)
      || name == "manifest.json" || name == ".DS_Store" || name == "Thumbs.db" || name == "desktop.ini"
      || EndsIn(Lowered(name), ".swp") || EndsIn(Lowered(name), ".swo") || EndsIn(name, "~")
  {
    SuffixIff(name, ".swp");
    SuffixIff(name, ".swo");
    SuffixIff(name, "~");
    if "." <= name {
      assert name == "." + name[1..];
    }
    assert SKILL_DEPLOY_SKIP_SUFFIX[0] == ".swp" && SKILL_DEPLOY_SKIP_SUFFIX[1] == ".swo";
    assert SKILL_DEPLOY_SKIP_SUFFIX[2] == "~";
    TildeEnds(name);
  }

  lemma TildeEnds(name: string)
    ensures EndsIn(Lowered(name), "~") <==> EndsIn(name, "~")
  {
    if EndsIn(Lowered(name), "~") {
      var stem :| Lowered(name) == stem + "~";
      assert Lowered(name)[|name| - 1] == '~';
      assert name == name[..|name| - 1] + "~";
    }
    if EndsIn(name, "~") {
      var stem :| name == stem + "~";
      assert Lowered(name)[|name| - 1] == '~';
      assert Lowered(name) == Lowered(name)[..|name| - 1] + "~";
    }
  }

  lemma SuffixIff(name: string, suffix: string)
    requires Lowered(suffix) == suffix
    ensures EndsWithIgnoreCase(name, suffix) <==> EndsIn(Lowered(name), suffix)
  {
    if EndsWithIgnoreCase(name, suffix) {
      var k := |name| - |suffix|;
      assert Lowered(name)[k..] == Lowered(suffix);
      assert Lowered(name) == Lowered(name)[..k] + suffix;
    }
    if EndsIn(Lowered(name), suffix) {
      var stem :| Lowered(name) == stem + suffix;
      forall i | 0 <= i < |suffix|
        ensures LowerAscii(name[|name| - |suffix| + i]) == LowerAscii(suffix[i])
      {
        assert Lowered(name)[|stem| + i] == suffix[i] == Lowered(suffix)[i];
      }
    }
  }

  // ---------- Mirroring ----------

  function EntryAt(dst: Option<Node>, name: string): Option<Node> {
    if dst.Some? && dst.value.Dir? && name in dst.value.entries then Some(dst.value.entries[name]) else None
  }

  /** The node at a path of names. */
  function At(n: Node, path: seq<string>): Option<Node> {
    if path == [] then Some(n)
    else if n.Dir? && path[0] in n.entries then At(n.entries[path[0]], path[1..])
    else None
  }

  predicate IsDirAt(n: Option<Node>, path: seq<string>) {
    n.Some? && At(n.value, path).Some? && At(n.value, path).value.Dir?
  }

  predicate IsFileAt(n: Option<Node>, path: seq<string>) {
    n.Some? && At(n.value, path).Some? && At(n.value, path).value.File?
  }

  /** No file of the destination stands where the source has a directory. */
  predicate Mirrorable(src: Node, dst: Option<Node>)
    decreases src
  {
    src.Dir? ==>
      && !(dst.Some? && dst.value.File?)
      && forall n :: n in src.entries ==> Mirrorable(src.entries[n], EntryAt(dst, n))
  }

  lemma {:induction false} MirrorableByPaths(src: Node, dst: Option<Node>)
    ensures Mirrorable(src, dst) <==> forall path :: IsDirAt(Some(src), path) ==> !IsFileAt(dst, path)
    decreases src
  {
    if src.Dir? {
      forall n | n in src.entries
        ensures Mirrorable(src.entries[n], EntryAt(dst, n)) <==>
          forall path :: IsDirAt(Some(src.entries[n]), path) ==> !IsFileAt(EntryAt(dst, n), path)
      {
        MirrorableByPaths(src.entries[n], EntryAt(dst, n));
      }
      if Mirrorable(src, dst) {
        forall path | IsDirAt(Some(src), path) ensures !IsFileAt(dst, path) {
          if path != [] && dst.Some? && dst.value.Dir? && path[0] in dst.value.entries {
            assert IsDirAt(Some(src.entries[path[0]]), path[1..]);
            assert Mirrorable(src.entries[path[0]], EntryAt(dst, path[0]));
          }
        }
      } else if dst.Some? && dst.value.File? {
        assert IsDirAt(Some(src), []) && IsFileAt(dst, []);
      } else {
        var n :| n in src.entries && !Mirrorable(src.entries[n], EntryAt(dst, n));
        var path :| IsDirAt(Some(src.entries[n]), path) && IsFileAt(EntryAt(dst, n), path);
        assert ([n] + path)[0] == n && ([n] + path)[1..] == path;
        assert IsDirAt(Some(src), [n] + path) && IsFileAt(dst, [n] + path);
      }
    } else {
      forall path ensures !IsDirAt(Some(src), path) {}
    }
  }

  /** mirror_tree: fails exactly where a destination file bars a directory; otherwise the
      destination becomes equal to the source, whatever it held before. */
  method MirrorTree(src: Node, dst: Option<Node>) returns (r: Option<Node>)
    ensures r.Some? <==> Mirrorable(src, dst)
    ensures r.Some? ==> r.value == src
    decreases src
  {
    match src
    case File(bytes) =>
      // A directory in the way is removed first, so that the copy lands at the destination.
      return Some(File(bytes));
    case Dir(entries) =>
      if dst.Some? && dst.value.File? {
        return None;
      }
      var held := if dst.Some? then dst.value.entries else map[];
      var names := held.Keys;
      while names != {}
        invariant names <= held.Keys
        invariant forall n :: n in entries ==> EntryAt(Some(Dir(held)), n) == EntryAt(dst, n)
        invariant forall n :: n in held.Keys - names ==> n in entries
      {
        var n :| n in names;
        if n !in entries {
          held := held - {n};
        }
        names := names - {n};
      }
      var todo := entries.Keys;
      while todo != {}
        invariant todo <= entries.Keys && held.Keys <= entries.Keys
        invariant forall n :: n in todo ==> EntryAt(Some(Dir(held)), n) == EntryAt(dst, n)
        invariant forall n :: n in entries.Keys - todo ==>
          n in held && held[n] == entries[n] && Mirrorable(entries[n], EntryAt(dst, n))
      {
        var n :| n in todo;
        var child := MirrorTree(entries[n], EntryAt(Some(Dir(held)), n));
        if child.None? {
          return None;
        }
        held := held[n := child.value];
        todo := todo - {n};
      }
      assert held == entries;
      return Some(Dir(held));
  }

  // ---------- Deploying ----------

  /** The source without the skipped names, at every level. */
  function Filtered(n: Node): Node
    decreases n
  {
    match n
    case File(_) => n
    case Dir(entries) => Dir(map name | name in entries && !Skipped(name) :: Filtered(entries[name]))
  }

  /** The node that the filtered tree has at a path: that of the source if no name on the path
      is skipped, with the same bytes if it is a file. */
  lemma {:induction false} FilteredByPaths(n: Node, path: seq<string>)
    ensures forall b :: At(Filtered(n), path) == Some(File(b)) <==> IsShipped(path) && At(n, path) == Some(File(b))
    ensures IsDirAt(Some(Filtered(n)), path) <==> IsShipped(path) && IsDirAt(Some(n), path)
    decreases |path|
  {
    if path != [] {
      var name, rest := path[0], path[1..];
      assert path == [name] + rest;
      if n.Dir? && name in n.entries && !Skipped(name) {
        FilteredByPaths(n.entries[name], rest);
        assert Filtered(n).entries[name] == Filtered(n.entries[name]);
      }
    }
  }

  /** deploy_skill_files into the empty directory that wiping or creating it has left. */
  method DeploySkillFiles(src: Node) returns (dest: Node)
    requires src.Dir?
    ensures dest == Filtered(src)
    decreases src
  {
    var deployed: map<string, Node>, todo := map[], src.entries.Keys;
    while todo != {}
      invariant todo <= src.entries.Keys
      invariant deployed.Keys == set n | n in src.entries.Keys - todo && !Skipped(n)
      invariant forall n :: n in deployed ==> deployed[n] == Filtered(src.entries[n])
    {
      var n :| n in todo;
      todo := todo - {n};
      if !Skipped(n) {
        var child := src.entries[n];
        if child.Dir? {
          child := DeploySkillFiles(child);
        }
        deployed := deployed[n := child];
      }
    }
    return Dir(deployed);
  }

  /** Deployment goes through: there is a source directory, and no regular file stands where
      the old destination has to be removed as a directory. */
  predicate Deployable(src: Option<Node>, dest: Option<Node>) {
    src.Some? && src.value.Dir? && !(dest.Some? && dest.value.File?)
  }

  function Deployed(src: Option<Node>, dest: Option<Node>): Option<Node> {
    if Deployable(src, dest) then Some(Filtered(src.value)) else dest
  }

  /** At every path without skipped names `copy` has what `n` has, file contents included, and at
      other paths nothing. */
  ghost predicate IsCopy(n: Node, copy: Node) {
    && (forall path, b :: At(copy, path) == Some(File(b)) <==> IsShipped(path) && At(n, path) == Some(File(b)))
    && (forall path :: IsDirAt(Some(copy), path) <==> IsShipped(path) && IsDirAt(Some(n), path))
  }

  ghost predicate IsShipped(path: seq<string>) {
    forall i :: 0 <= i < |path| ==> !Skipped(path[i])
  }

  lemma FilteredIsCopy(n: Node)
    ensures IsCopy(n, Filtered(n))
  {
    forall path
      ensures forall b :: At(Filtered(n), path) == Some(File(b)) <==> IsShipped(path) && At(n, path) == Some(File(b))
      ensures IsDirAt(Some(Filtered(n)), path) <==> IsShipped(path) && IsDirAt(Some(n), path)
    {
      FilteredByPaths(n, path);
    }
  }

  /** fs::remove_dir_all: refuses a path that is not a directory. */
  method RemoveDirAll(n: Node) returns (left: Option<Node>)
    ensures left == if n.Dir? then None else Some(n)
  {
    return if n.Dir? then None else Some(n);
  }

  /** deploy_skill_to_harness: an old directory is wiped, whatever it holds; an old file stays
      and is an error. */
  method DeploySkill(src: Option<Node>, dest: Option<Node>) returns (ok: bool, deployed: Option<Node>)
    ensures ok <==> Deployable(src, dest)
    ensures deployed == Deployed(src, dest)
    ensures ok ==> deployed.Some? && IsCopy(src.value, deployed.value)
  {
    if src.None? || !src.value.Dir? {
      return false, dest;
    }
    if dest.Some? {
      var left := RemoveDirAll(dest.value);
      if left.Some? {
        return false, left;
      }
    }
    var tree := DeploySkillFiles(src.value);
    FilteredIsCopy(src.value);
    return true, Some(tree);
  }

  // ---------- Drift ----------

  datatype Warning =
    | DirectoryMissing(place: seq<string>)
    | MissingSibling(place: seq<string>, name: string)
    | TypeMismatch(place: seq<string>, name: string)
    | StaleSibling(place: seq<string>, name: string)

  /** What is left of a tree when skipped names and file contents are forgotten. */
  function Skeleton(n: Node): Node
    decreases n
  {
    match n
    case File(_) => File([])
    case Dir(entries) => Dir(map name | name in entries && !Skipped(name) :: Skeleton(entries[name]))
  }

  /** `w` is one of the differences between the directory `src` at `place` and `dest`. */
  ghost predicate Drifts(src: Node, dest: Node, place: seq<string>, w: Warning)
    requires src.Dir?
    decreases src, 1
  {
    if dest.File? then w == DirectoryMissing(place)
    else
      DriftsAmong(src, dest, place, src.entries.Keys, w) || StaleAmong(src, dest, place, dest.entries.Keys, w)
  }

  ghost predicate DriftsAmong(src: Node, dest: Node, place: seq<string>, names: set<string>, w: Warning)
    requires src.Dir? && dest.Dir? && names <= src.entries.Keys
    decreases src, 0, 1
  {
    exists n :: n in names && DriftsAt(src, dest, place, n, w)
  }

  ghost predicate StaleAmong(src: Node, dest: Node, place: seq<string>, names: set<string>, w: Warning)
    requires src.Dir? && dest.Dir? && names <= dest.entries.Keys
  {
    exists n :: n in names && IsStale(src, dest, place, n, w)
  }

  ghost predicate DriftsAt(src: Node, dest: Node, place: seq<string>, n: string, w: Warning)
    requires src.Dir? && dest.Dir? && n in src.entries
    decreases src, 0, 0
  {
    !Skipped(n) &&
    var child := src.entries[n];
    if n !in dest.entries then w == MissingSibling(place, n)
    else if child.Dir? != dest.entries[n].Dir? then w == TypeMismatch(place, n)
    else child.Dir? && Drifts(child, dest.entries[n], place + [n], w)
  }

  predicate IsStale(src: Node, dest: Node, place: seq<string>, n: string, w: Warning)
    requires src.Dir? && dest.Dir? && n in dest.entries
  {
    !Skipped(n) && n !in src.entries && w == StaleSibling(place, n)
  }

  lemma DriftsAmongGrows(src: Node, dest: Node, place: seq<string>, names: set<string>, n: string)
    requires src.Dir? && dest.Dir? && names <= src.entries.Keys && n in src.entries
    ensures forall w :: DriftsAmong(src, dest, place, names + {n}, w) <==>
      DriftsAmong(src, dest, place, names, w) || DriftsAt(src, dest, place, n, w)
  {}

  lemma StaleAmongGrows(src: Node, dest: Node, place: seq<string>, names: set<string>, n: string)
    requires src.Dir? && dest.Dir? && names <= dest.entries.Keys && n in dest.entries
    ensures forall w :: StaleAmong(src, dest, place, names + {n}, w) <==>
      StaleAmong(src, dest, place, names, w) || IsStale(src, dest, place, n, w)
  {}

  class WarningList {
    var items: seq<Warning>

    constructor ()
      ensures items == []
    {
      items := [];
    }

    method Push(w: Warning)
      modifies this
      ensures items == old(items) + [w]
    {
      items := items + [w];
    }
  }

  /** What is reported for a destination that need not be there. */
  ghost predicate Collected(src: Node, dest: Option<Node>, place: seq<string>, w: Warning) {
    src.Dir? && if dest.None? then w == DirectoryMissing(place) else Drifts(src, dest.value, place, w)
  }

  /** collect_skill_drift: pushes exactly the differences. */
  method CollectSkillDrift(src: Node, dest: Option<Node>, place: seq<string>, warnings: WarningList)
    modifies warnings
    ensures old(warnings.items) <= warnings.items
    ensures forall w :: w in warnings.items <==> w in old(warnings.items) || Collected(src, dest, place, w)
    decreases src
  {
    if !src.Dir? {
      return;
    }
    if dest.None? || dest.value.File? {
      warnings.Push(DirectoryMissing(place));
      return;
    }
    var entries, held := src.entries, dest.value.entries;
    var todo := entries.Keys;
    while todo != {}
      invariant todo <= entries.Keys
      invariant old(warnings.items) <= warnings.items
      invariant forall w :: w in warnings.items <==>
        w in old(warnings.items) || DriftsAmong(src, dest.value, place, entries.Keys - todo, w)
    {
      var n :| n in todo;
      DriftsAmongGrows(src, dest.value, place, entries.Keys - todo, n);
      assert entries.Keys - (todo - {n}) == entries.Keys - todo + {n};
      CheckEntry(src, dest.value, place, n, warnings);
      todo := todo - {n};
    }
    var names := held.Keys;
    while names != {}
      invariant names <= held.Keys
      invariant old(warnings.items) <= warnings.items
      invariant forall w :: w in warnings.items <==>
        w in old(warnings.items) || DriftsAmong(src, dest.value, place, entries.Keys, w) ||
        StaleAmong(src, dest.value, place, held.Keys - names, w)
    {
      var n :| n in names;
      StaleAmongGrows(src, dest.value, place, held.Keys - names, n);
      assert held.Keys - (names - {n}) == held.Keys - names + {n};
      if !Skipped(n) && n !in entries {
        warnings.Push(StaleSibling(place, n));
      }
      names := names - {n};
    }
  }

  method CheckEntry(src: Node, dest: Node, place: seq<string>, n: string, warnings: WarningList)
    requires src.Dir? && dest.Dir? && n in src.entries
    modifies warnings
    ensures old(warnings.items) <= warnings.items
    ensures forall w :: w in warnings.items <==> w in old(warnings.items) || DriftsAt(src, dest, place, n, w)
    decreases src, 0
  {
    if Skipped(n) {
      return;
    }
    var child := src.entries[n];
    if n !in dest.entries {
      warnings.Push(MissingSibling(place, n));
    } else if child.Dir? && dest.entries[n].Dir? {
      CollectSkillDrift(child, Some(dest.entries[n]), place + [n], warnings);
    } else if child.Dir? != dest.entries[n].Dir? {
      warnings.Push(TypeMismatch(place, n));
    }
  }

  /** The two directories at `path` differ in the entry `n`, and `w` says how. */
  ghost predicate Differs(src: Node, dest: Node, place: seq<string>, path: seq<string>, n: string, w: Warning) {
    && IsShipped(path) && !Skipped(n) && IsDirAt(Some(src), path) && IsDirAt(Some(dest), path)
    && var s, d := At(src, path).value.entries, At(dest, path).value.entries;
      || (w == MissingSibling(place + path, n) && n in s && n !in d)
      || (w == StaleSibling(place + path, n) && n !in s && n in d)
      || (w == TypeMismatch(place + path, n) && n in s && n in d && s[n].Dir? != d[n].Dir?)
  }

  lemma DiffersBelow(src: Node, dest: Node, place: seq<string>, k: string, path: seq<string>, n: string, w: Warning)
    requires src.Dir? && dest.Dir? && k in src.entries && k in dest.entries && !Skipped(k)
    ensures Differs(src, dest, place, [k] + path, n, w)
       <==> Differs(src.entries[k], dest.entries[k], place + [k], path, n, w)
  {
    var longer := [k] + path;
    assert longer[0] == k && longer[1..] == path;
    assert place + longer == place + [k] + path;
    assert IsShipped(longer) <==> IsShipped(path) by {
      assert forall i :: 0 <= i < |path| ==> path[i] == longer[i + 1];
    }
  }

  /** The warnings are exactly the differences between directories that stand at the same path in
      both trees, outside the filter. */
  lemma {:induction false} DriftsByPaths(src: Node, dest: Node, place: seq<string>, w: Warning)
    requires src.Dir? && dest.Dir?
    ensures Drifts(src, dest, place, w) <==> exists path, n :: Differs(src, dest, place, path, n, w)
    decreases src
  {
    if Drifts(src, dest, place, w) {
      DriftHasPath(src, dest, place, w);
    }
    if path: seq<string>, n :| Differs(src, dest, place, path, n, w) {
      if path == [] {
        assert place + path == place;
        DifferenceHere(src, dest, place, n, w);
      } else {
        var k := path[0];
        assert path == [k] + path[1..];
        DiffersBelow(src, dest, place, k, path[1..], n, w);
        DriftsByPaths(src.entries[k], dest.entries[k], place + [k], w);
        DriftBelow(src, dest, place, k, w);
      }
    }
  }

  lemma DifferenceHere(src: Node, dest: Node, place: seq<string>, n: string, w: Warning)
    requires src.Dir? && dest.Dir? && Differs(src, dest, place, [], n, w)
    ensures Drifts(src, dest, place, w)
  {
    assert place + [] == place;
    if n in src.entries {
      DriftBelow(src, dest, place, n, w);
    } else {
      StaleDrifts(src, dest, place, n);
    }
  }

  lemma {:induction false} DriftHasPath(src: Node, dest: Node, place: seq<string>, w: Warning)
    requires src.Dir? && dest.Dir? && Drifts(src, dest, place, w)
    ensures exists path, n :: Differs(src, dest, place, path, n, w)
    decreases src
  {
    assert place + [] == place;
    if StaleAmong(src, dest, place, dest.entries.Keys, w) {
      var n :| n in dest.entries && IsStale(src, dest, place, n, w);
      assert Differs(src, dest, place, [], n, w);
    } else {
      var n :| n in src.entries && DriftsAt(src, dest, place, n, w);
      if n in dest.entries && src.entries[n].Dir? && dest.entries[n].Dir? {
        DriftHasPath(src.entries[n], dest.entries[n], place + [n], w);
        var path: seq<string>, k :| Differs(src.entries[n], dest.entries[n], place + [n], path, k, w);
        DiffersBelow(src, dest, place, n, path, k, w);
      } else {
        assert Differs(src, dest, place, [], n, w);
      }
    }
  }

  ghost predicate NoDrift(src: Node, dest: Node, place: seq<string>)
    requires src.Dir?
  {
    forall w :: !Drifts(src, dest, place, w)
  }

  /** Nothing is reported exactly when the two trees agree in names and kinds outside the filter. */
  lemma {:induction false} NoDriftIffSameSkeleton(src: Node, dest: Node, place: seq<string>)
    requires src.Dir?
    ensures NoDrift(src, dest, place) <==> Skeleton(src) == Skeleton(dest)
    decreases src
  {
    if dest.File? {
      assert Drifts(src, dest, place, DirectoryMissing(place));
    } else {
      forall n | n in src.entries && n in dest.entries && src.entries[n].Dir? && dest.entries[n].Dir?
        ensures NoDrift(src.entries[n], dest.entries[n], place + [n])
           <==> Skeleton(src.entries[n]) == Skeleton(dest.entries[n])
      {
        NoDriftIffSameSkeleton(src.entries[n], dest.entries[n], place + [n]);
      }
      if Skeleton(src) == Skeleton(dest) {
        SameSkeletonIsSilent(src, dest, place);
      } else if NoDrift(src, dest, place) {
        SilentIsSameSkeleton(src, dest, place);
      }
    }
  }

  lemma SkeletonEntries(n: Node)
    requires n.Dir?
    ensures Skeleton(n).Dir?
    ensures forall name :: name in Skeleton(n).entries <==> name in n.entries && !Skipped(name)
    ensures forall name :: name in Skeleton(n).entries ==> Skeleton(n).entries[name] == Skeleton(n.entries[name])
  {}

  lemma SameSkeletonIsSilent(src: Node, dest: Node, place: seq<string>)
    requires src.Dir? && dest.Dir? && Skeleton(src) == Skeleton(dest)
    requires forall n :: n in src.entries && n in dest.entries && src.entries[n].Dir? && dest.entries[n].Dir? ==>
      (NoDrift(src.entries[n], dest.entries[n], place + [n]) <==> Skeleton(src.entries[n]) == Skeleton(dest.entries[n]))
    ensures NoDrift(src, dest, place)
  {
    SkeletonEntries(src);
    SkeletonEntries(dest);
    forall w ensures !Drifts(src, dest, place, w) {
      forall n | n in src.entries ensures !DriftsAt(src, dest, place, n, w) {
        if !Skipped(n) {
          assert n in Skeleton(src).entries;
          assert Skeleton(src.entries[n]) == Skeleton(dest.entries[n]);
        }
      }
      forall n | n in dest.entries ensures !IsStale(src, dest, place, n, w) {
        assert !Skipped(n) ==> n in Skeleton(dest).entries;
      }
    }
  }

  lemma DriftBelow(src: Node, dest: Node, place: seq<string>, n: string, w: Warning)
    requires src.Dir? && dest.Dir? && n in src.entries && DriftsAt(src, dest, place, n, w)
    ensures Drifts(src, dest, place, w)
  {
    assert n in src.entries.Keys;
  }

  lemma StaleDrifts(src: Node, dest: Node, place: seq<string>, n: string)
    requires src.Dir? && dest.Dir? && n in dest.entries && !Skipped(n) && n !in src.entries
    ensures Drifts(src, dest, place, StaleSibling(place, n))
  {
    assert n in dest.entries.Keys && IsStale(src, dest, place, n, StaleSibling(place, n));
  }

  lemma SilentIsSameSkeleton(src: Node, dest: Node, place: seq<string>)
    requires src.Dir? && dest.Dir? && NoDrift(src, dest, place)
    requires forall n :: n in src.entries && n in dest.entries && src.entries[n].Dir? && dest.entries[n].Dir? ==>
      (NoDrift(src.entries[n], dest.entries[n], place + [n]) <==> Skeleton(src.entries[n]) == Skeleton(dest.entries[n]))
    ensures Skeleton(src) == Skeleton(dest)
  {
    forall n | n in src.entries && !Skipped(n)
      ensures n in dest.entries && Skeleton(src.entries[n]) == Skeleton(dest.entries[n])
    {
      if n !in dest.entries {
        DriftBelow(src, dest, place, n, MissingSibling(place, n));
      } else if src.entries[n].Dir? != dest.entries[n].Dir? {
        DriftBelow(src, dest, place, n, TypeMismatch(place, n));
      } else if src.entries[n].Dir? {
        forall w ensures !Drifts(src.entries[n], dest.entries[n], place + [n], w) {
          if Drifts(src.entries[n], dest.entries[n], place + [n], w) {
            DriftBelow(src, dest, place, n, w);
          }
        }
      }
    }
    forall n | n in dest.entries && !Skipped(n) ensures n in src.entries {
      if n !in src.entries {
        StaleDrifts(src, dest, place, n);
      }
    }
    assert Skeleton(src).entries == Skeleton(dest).entries;
  }

  lemma {:induction false} FilteredKeepsSkeleton(n: Node)
    ensures Skeleton(Filtered(n)) == Skeleton(n)
    decreases n
  {
    if n.Dir? {
      forall name | name in n.entries && !Skipped(name)
        ensures Skeleton(Filtered(n.entries[name])) == Skeleton(n.entries[name])
      {
        FilteredKeepsSkeleton(n.entries[name]);
      }
      assert Skeleton(Filtered(n)).entries == Skeleton(n).entries;
    }
  }

  /** A fresh deployment shows no drift. */
  lemma DeployedHasNoDrift(src: Node, place: seq<string>)
    requires src.Dir?
    ensures NoDrift(src, Filtered(src), place)
  {
    FilteredKeepsSkeleton(src);
    NoDriftIffSameSkeleton(src, Filtered(src), place);
  }

  /** After a deployment nothing is reported exactly if it went through: a file that bars
      it is reported. */
  lemma DeployThenDrift(src: Node, dest: Option<Node>, place: seq<string>)
    requires src.Dir?
    ensures (forall w :: !Collected(src, Deployed(Some(src), dest), place, w)) <==> Deployable(Some(src), dest)
  {
    var deployed := Deployed(Some(src), dest);
    if Deployable(Some(src), dest) {
      DeployedHasNoDrift(src, place);
    } else {
      assert Collected(src, deployed, place, DirectoryMissing(place));
    }
  }

  /** A file in place of the destination survives, and nothing is deployed. */
  lemma FileBarsDeployment() returns (src: Node, dest: Option<Node>)
    ensures src.Dir? && dest.Some? && Deployed(Some(src), dest) == dest != Some(Filtered(src))
  {
    src, dest := Dir(map[]), Some(File([]));
  }
}
