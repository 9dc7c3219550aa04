/** The crash-recoverable multi-file transaction (crates/mp/src/mutation_txn.rs and its
    caller crates/mp/src/plan_io.rs).

    A method stands for the program's function of the same name. `if *` before a step is
    the process ending there. An atomic write, and the removal of a transaction directory,
    are each one step; other I/O faults are not modelled. */
module RecoveryTxn {
  import opened Prelude
  import opened PlanTree

  const MAX_MANIFEST_PATHS := 100_000

  datatype Outcome = Ok | Err | Crash

  /** A directory under the transaction root. */
  datatype TxnDir = TxnDir(before: map<Path, Bytes>, manifest: Option<Manifest>, committed: bool) {
    /** No manifest and no seal: recovery has nothing to go by. */
    predicate Unrecoverable() {
      manifest.None? && !committed
    }

    /** The tree that recovery makes of `t`: a sealed directory keeps it. */
    function Recovered(t: Tree): Tree {
      if !committed && manifest.Some? && manifest.value.baseline <= before.Keys
      then Restored(manifest.value, before, t)
      else t
    }

    /** Restoring from this directory would fail on `t`. */
    ghost predicate Blocked(t: Tree) {
      !committed && manifest.Some? && Conflict(manifest.value, t)
    }
  }

  /** The disk under the plan lock. `history` holds the initial files and the files at each
      seal: what an observer of committed states would have seen. */
  class PlanDisk {
    var plan: Tree
    var txns: map<string, TxnDir>
    ghost var history: seq<map<Path, Bytes>>

    ghost function Stable(): map<Path, Bytes>
      reads this
      requires history != []
    {
      history[|history| - 1]
    }

    /** What one transaction directory guarantees about the stable files. */
    ghost predicate Protects(t: TxnDir)
      reads this
      requires history != []
    {
      if t.committed || t.manifest.None? then
        plan.files == Stable()
      else
        t.manifest.value.Valid() && t.manifest.value.baseline <= t.before.Keys &&
        BeforeImage(t.manifest.value, t.before) == Stable()
    }

    /** Holds between any two steps of any run: at most one transaction directory, and the
        stable files are on disk or in its before-image. */
    ghost predicate Inv()
      reads this
    {
      && plan.Valid() && history != []
      && (forall n, k :: n in txns && k in txns ==> n == k)
      && (forall n :: n in txns ==> Protects(txns[n]))
      && (txns == map[] ==> plan.files == Stable())
    }

    constructor (plan: Tree)
      requires plan.Valid()
      ensures Inv() && this.plan == plan && txns == map[] && history == [plan.files]
    {
      this.plan, txns, history := plan, map[], [plan.files];
    }

    // ---------- Restoring the before-image ----------

    /** restore_before_image: wherever it stops, restoring from there leads to the same tree;
        when it succeeds it has got there. It fails exactly on a conflict. */
    method RestoreBeforeImage(m: Manifest, before: map<Path, Bytes>) returns (o: Outcome)
      requires plan.Valid() && m.Valid() && m.baseline <= before.Keys
      modifies this`plan
      ensures plan.Valid()
      ensures Restored(m, before, plan) == Restored(m, before, old(plan))
      ensures Conflict(m, plan) <==> Conflict(m, old(plan))
      ensures o.Ok? ==> plan == Restored(m, before, old(plan)) && !Conflict(m, old(plan))
      ensures o.Err? ==> Conflict(m, old(plan))
    {
      var currentFiles, currentDirs := plan.files.Keys, plan.dirs;
      o := RemoveCreatedFiles(m, currentFiles);
      if !o.Ok? {
        return;
      }
      o := RewriteBaseline(m, before);
      if !o.Ok? {
        return;
      }
      o := RemoveCreatedDirs(m, before, currentDirs - m.directories);
    }

    method RemoveCreatedFiles(m: Manifest, currentFiles: set<Path>) returns (o: Outcome)
      requires plan.Valid() && currentFiles == plan.files.Keys
      modifies this`plan
      ensures plan.Valid() && plan.dirs == old(plan).dirs
      ensures !o.Err?
      ensures o.Ok? ==> plan.files.Keys <= m.baseline
    {
      var todo := currentFiles;
      while todo != {}
        invariant plan.Valid() && plan.dirs == old(plan).dirs
        invariant todo <= plan.files.Keys <= m.baseline + todo
      {
        var p :| p in todo;
        todo := todo - {p};
        if p !in m.baseline {
          if * {
            return Crash;
          }
          plan := plan.(files := plan.files - {p});
        }
      }
      return Ok;
    }

    method RewriteBaseline(m: Manifest, before: map<Path, Bytes>) returns (o: Outcome)
      requires plan.Valid() && m.Valid() && m.baseline <= before.Keys
      requires plan.files.Keys <= m.baseline
      modifies this`plan
      ensures plan.Valid() && plan.files.Keys <= m.baseline
      ensures old(plan).dirs <= plan.dirs <= old(plan).dirs + ParentDirs(m.baseline)
      ensures o.Ok? ==> plan.files == BeforeImage(m, before) && ParentDirs(m.baseline) <= plan.dirs
      ensures o.Ok? ==> !Conflict(m, old(plan))
      ensures o.Err? ==> Conflict(m, old(plan))
    {
      ParentDirsAreBaselineDirs(m);
      var todo := m.baseline;
      while todo != {}
        invariant todo <= m.baseline
        invariant plan.Valid() && plan.files.Keys <= m.baseline
        invariant old(plan).dirs <= plan.dirs <= old(plan).dirs + ParentDirs(m.baseline)
        invariant ParentDirs(m.baseline - todo) <= plan.dirs
        invariant forall p :: p in m.baseline - todo ==> p in plan.files && plan.files[p] == before[p]
      {
        var p :| p in todo;
        todo := todo - {p};
        o := CreateParents(m, p);
        if o.Crash? {
          return;
        }
        if * {
          return Crash;
        }
        if p in plan.dirs {
          return Err;
        }
        plan := plan.(files := plan.files[p := before[p]]);
      }
      assert plan.files == BeforeImage(m, before);
      return Ok;
    }

    /** create_dir_all of the parent of a baseline file: no baseline directory can be in
        the way as a file. */
    method CreateParents(m: Manifest, p: Path) returns (o: Outcome)
      requires plan.Valid() && m.Valid() && p in m.baseline && plan.files.Keys <= m.baseline
      modifies this`plan
      ensures plan.Valid() && plan.files == old(plan).files
      ensures old(plan).dirs <= plan.dirs <= old(plan).dirs + ParentDirs({p})
      ensures !o.Err?
      ensures o.Ok? ==> ParentDirs({p}) <= plan.dirs
    {
      assert p in m.baseline + m.directories;
      var i := 1;
      while i < |p|
        invariant 1 <= i
        invariant plan.Valid() && plan.files == old(plan).files
        invariant old(plan).dirs <= plan.dirs <= old(plan).dirs + ParentDirs({p})
        invariant forall j :: 1 <= j < i && j < |p| ==> p[..j] in plan.dirs
      {
        if p[..i] in plan.files {
          return Err;
        }
        if p[..i] !in plan.dirs {
          if * {
            return Crash;
          }
          assert p[..i] in ParentDirs({p});
          assert forall j :: 1 <= j < i ==> p[..i][..j] == p[..j];
          plan := plan.(dirs := plan.dirs + {p[..i]});
        }
        i := i + 1;
      }
      return Ok;
    }

    /** The directories that the failed mutation created go deepest first; none of them is
        ever found non-empty. */
    method RemoveCreatedDirs(m: Manifest, before: map<Path, Bytes>, created: set<Path>) returns (o: Outcome)
      requires plan.Valid() && m.Valid() && m.baseline <= before.Keys
      requires plan.files == BeforeImage(m, before) && ParentDirs(m.baseline) <= plan.dirs
      requires created !! m.directories && plan.dirs - created <= m.directories && created <= plan.dirs
      modifies this`plan
      ensures plan.Valid() && plan.files == old(plan).files
      ensures m.directories * plan.dirs == m.directories * old(plan).dirs
      ensures !o.Err?
      ensures o.Ok? ==> plan.dirs == m.directories * old(plan).dirs
    {
      var todo := created;
      while todo != {}
        invariant todo <= created && todo <= plan.dirs
        invariant plan.Valid() && plan.files == old(plan).files
        invariant plan.dirs == m.directories * old(plan).dirs + todo
      {
        var p := Deepest(todo);
        CreatedDirIsEmpty(m, plan, todo, p);
        if * {
          return Crash;
        }
        if plan.IsEmptyDir(p) {
          RemovingEmptyDir(plan, p);
          plan := plan.(dirs := plan.dirs - {p});
        }
        todo := todo - {p};
      }
      return Ok;
    }

    /** However often restoring is cut short, a run that gets to its end leaves the tree that
        one undisturbed run would have left. */
    method RestoreAfterCrashes(m: Manifest, before: map<Path, Bytes>, crashes: nat) returns (o: Outcome)
      requires plan.Valid() && m.Valid() && m.baseline <= before.Keys
      modifies this`plan
      ensures plan.Valid()
      ensures Restored(m, before, plan) == Restored(m, before, old(plan))
      ensures o.Ok? ==> plan == Restored(m, before, old(plan))
      ensures !o.Crash? ==> (o.Ok? <==> !Conflict(m, old(plan)))
    {
      o := RestoreBeforeImage(m, before);
      var restarts := crashes;
      while o.Crash? && restarts > 0
        invariant plan.Valid()
        invariant Restored(m, before, plan) == Restored(m, before, old(plan))
        invariant Conflict(m, plan) <==> Conflict(m, old(plan))
        invariant o.Ok? ==> plan == Restored(m, before, old(plan)) && !Conflict(m, old(plan))
        invariant o.Err? ==> Conflict(m, old(plan))
      {
        o := RestoreBeforeImage(m, before);
        restarts := restarts - 1;
      }
    }

    // ---------- Recovery by the next writer ----------

    /** Some transaction directory stops recovery: it was never finished, or a baseline file
        has been replaced by a directory. */
    ghost predicate Stuck()
      reads this
    {
      exists n :: n in txns && (txns[n].Unrecoverable() || txns[n].Blocked(plan))
    }

    /** recover_pending: once it returns Ok no transaction is left and the plan files are
        exactly the stable ones. Short of a crash it returns Ok unless it is stuck, and over a
        transaction that was never finished it leaves the plan alone. */
    method RecoverPending() returns (o: Outcome)
      requires Inv()
      modifies this`plan, this`txns
      ensures Inv()
      ensures txns.Keys <= old(txns).Keys
      ensures o.Ok? ==> txns == map[] && plan.files == Stable() && !old(Stuck())
      ensures o.Err? ==> txns == old(txns) && Stuck() && old(Stuck())
      ensures o.Ok? ==> forall n :: n in old(txns) ==> plan == old(txns)[n].Recovered(old(plan))
      ensures (forall n :: n in old(txns) ==> old(txns)[n].Unrecoverable()) ==> plan == old(plan)
    {
      var entries := txns.Keys;
      while entries != {}
        invariant Inv() && entries == txns.Keys
        invariant (txns == old(txns) && plan == old(plan)) || (txns == map[] && !old(Stuck()))
        invariant txns == map[] ==> forall n :: n in old(txns) ==> plan == old(txns)[n].Recovered(old(plan))
        invariant (forall n :: n in old(txns) ==> old(txns)[n].Unrecoverable()) ==> plan == old(plan)
      {
        var n :| n in entries;
        var t := txns[n];
        assert Protects(t) && txns.Keys == {n};
        if t.committed {
          if * {
            return Crash;
          }
          RemoveTxn(n);
        } else if t.manifest.None? {
          return Err;
        } else {
          o := RestoreBeforeImage(t.manifest.value, t.before);
          if !o.Ok? {
            return;
          }
          if * {
            return Crash;
          }
          RemoveTxn(n);
        }
        entries := entries - {n};
      }
      return Ok;
    }

    method CreateTxn(name: string)
      requires Inv() && txns == map[]
      modifies this`txns
      ensures Inv() && txns == map[name := TxnDir(map[], None, false)]
    {
      txns := txns[name := TxnDir(map[], None, false)];
    }

    /** The manifest arms the transaction: from here on recovery restores. */
    method WriteManifest(name: string, manifest: Manifest)
      requires Inv() && name in txns && txns[name].Unrecoverable() && txns[name].before == plan.files
      requires manifest == Manifest(plan.files.Keys, plan.dirs)
      modifies this`txns
      ensures Inv() && txns == map[name := TxnDir(plan.files, Some(manifest), false)]
    {
      assert txns.Keys == {name} && Protects(txns[name]);
      assert BeforeImage(manifest, plan.files) == plan.files;
      txns := txns[name := txns[name].(manifest := Some(manifest))];
    }

    /** Copies every plan file into the transaction directory. */
    method StageBeforeImage(name: string, manifest: Manifest) returns (o: Outcome)
      requires Inv() && plan.files == Stable() && txns == map[name := TxnDir(map[], None, false)]
      requires manifest == Manifest(plan.files.Keys, plan.dirs)
      modifies this`txns
      ensures Inv() && txns.Keys == {name} && txns[name].Unrecoverable()
      ensures o.Ok? ==> txns[name].before == plan.files
    {
      var todo, before := manifest.baseline, map[];
      while todo != {}
        invariant todo <= manifest.baseline && before.Keys == manifest.baseline - todo
        invariant forall p :: p in before ==> before[p] == plan.files[p]
        invariant txns == map[name := TxnDir(before, None, false)]
      {
        var p :| p in todo;
        if * {
          return Crash;
        }
        before := before[p := plan.files[p]];
        todo := todo - {p};
        txns := map[name := TxnDir(before, None, false)];
      }
      if * {
        return Err;
      }
      if * {
        return Crash;
      }
      return Ok;
    }

    /** remove_dir_all of a transaction directory. */
    method RemoveTxn(n: string)
      requires n in txns
      modifies this`txns
      ensures txns == old(txns) - {n}
    {
      txns := txns - {n};
    }
  }

  /** The handle that `begin` returns. */
  class RecoveryTxn {
    const disk: PlanDisk
    const name: string
    const manifest: Manifest
    var active: bool

    constructor (disk: PlanDisk, name: string, manifest: Manifest)
      ensures this.disk == disk && this.name == name && this.manifest == manifest && active
    {
      this.disk, this.name, this.manifest, active := disk, name, manifest, true;
    }

    /** The transaction is under way: unsealed, with its manifest on disk. */
    ghost predicate Pending()
      reads this, disk
    {
      && active && disk.Inv()
      && name in disk.txns && !disk.txns[name].committed && disk.txns[name].manifest == Some(manifest)
    }

    /** commit: the seal is the one step at which the stable files change. */
    method Commit() returns (o: Outcome)
      requires Pending()
      modifies this, disk
      ensures disk.Inv() && disk.plan == old(disk.plan)
      ensures disk.history == old(disk.history) || disk.history == old(disk.history) + [old(disk.plan).files]
      ensures o.Ok? ==> disk.history == old(disk.history) + [old(disk.plan).files] && disk.txns == map[]
      ensures !o.Err?
    {
      assert disk.txns.Keys == {name};
      if * {
        return Crash;
      }
      disk.txns := disk.txns[name := disk.txns[name].(committed := true)];
      disk.history := disk.history + [disk.plan.files];
      if * {
        return Crash;
      }
      active := false;
      disk.RemoveTxn(name);
      return Ok;
    }

    /** rollback, and the drop of the handle that follows when restoring fails: that drop
        tries again, ignores the failure, and removes the before-image all the same. */
    method Rollback() returns (o: Outcome)
      requires Pending()
      modifies this, disk
      ensures disk.history == old(disk.history)
      ensures !o.Err? ==> disk.Inv()
      ensures o.Ok? ==> disk.txns == map[] && disk.plan.files == disk.Stable()
      ensures o.Err? ==> disk.txns == map[] && disk.plan.files != disk.Stable()
      ensures !o.Crash? ==> (o.Ok? <==> !Conflict(manifest, old(disk.plan)))
    {
      var t := disk.txns[name];
      assert disk.Protects(t) && disk.txns.Keys == {name};
      o := disk.RestoreBeforeImage(manifest, t.before);
      if o.Crash? {
        return;
      }
      if o.Ok? {
        active := false;
        if * {
          return Crash;
        }
        disk.RemoveTxn(name);
        return;
      }
      o := disk.RestoreBeforeImage(manifest, t.before);
      if o.Crash? {
        return;
      }
      if * {
        return Crash;
      }
      disk.RemoveTxn(name);
      return Err;
    }
  }

  /** RecoveryTxn::begin: recovers first, then stages a copy of every plan file; the plan
      itself stays as it is. Err covers a stuck recovery, too many files, and paths that
      cannot be written into the manifest; each of them leaves the disk stuck. */
  method Begin(disk: PlanDisk, name: string) returns (o: Outcome, txn: RecoveryTxn?)
    requires disk.Inv()
    modifies disk
    ensures disk.Inv() && disk.history == old(disk.history)
    ensures o.Err? ==> disk.Stuck()
    ensures o.Ok? ==> txn != null && fresh(txn) && txn.disk == disk && txn.Pending()
    ensures o.Ok? ==> disk.plan.files == disk.Stable() && txn.manifest == Manifest(disk.plan.files.Keys, disk.plan.dirs)
  {
    txn := null;
    o := disk.RecoverPending();
    if !o.Ok? {
      return;
    }
    if * {
      return Crash, null;
    }
    disk.CreateTxn(name);
    o, txn := StageAndArm(disk, name);
  }

  method StageAndArm(disk: PlanDisk, name: string) returns (o: Outcome, txn: RecoveryTxn?)
    requires disk.Inv() && disk.plan.files == disk.Stable() && disk.txns == map[name := TxnDir(map[], None, false)]
    modifies disk`txns
    ensures disk.Inv()
    ensures o.Err? ==> disk.Stuck()
    ensures o.Ok? ==> txn != null && fresh(txn) && txn.disk == disk && txn.Pending()
    ensures o.Ok? ==> txn.manifest == Manifest(disk.plan.files.Keys, disk.plan.dirs)
  {
    txn := null;
    var manifest := Manifest(disk.plan.files.Keys, disk.plan.dirs);
    assert name in disk.txns && disk.txns[name].Unrecoverable();
    if |manifest.baseline| > MAX_MANIFEST_PATHS {
      return Err, null;
    }
    o := disk.StageBeforeImage(name, manifest);
    if !o.Ok? {
      return;
    }
    if * {
      return Crash, null;
    }
    txn := Arm(disk, name, manifest);
  }

  method Arm(disk: PlanDisk, name: string, manifest: Manifest) returns (txn: RecoveryTxn)
    requires disk.Inv() && name in disk.txns && disk.txns[name].Unrecoverable()
    requires disk.txns[name].before == disk.plan.files
    requires manifest == Manifest(disk.plan.files.Keys, disk.plan.dirs)
    modifies disk`txns
    ensures fresh(txn) && txn.disk == disk && txn.manifest == manifest && txn.Pending()
  {
    disk.WriteManifest(name, manifest);
    txn := new RecoveryTxn(disk, name, manifest);
  }

  // ---------- Whole runs ----------

  datatype Ending = Success | IntentionalExit | Failure

  /** One recoverable operation: the states its writes lead the plan through, and how it ends. */
  datatype Operation = Operation(name: string, writes: seq<Tree>, ending: Ending) {
    ghost predicate Valid() {
      forall t :: t in writes ==> t.Valid()
    }
  }

  /** The files after all writes of the operation, over the files before it. */
  ghost function AfterImage(op: Operation, before: map<Path, Bytes>): map<Path, Bytes> {
    if op.writes == [] then before else op.writes[|op.writes| - 1].files
  }

  /** The operation fails after leaving a directory where `before` has a file. */
  ghost predicate Obstructs(op: Operation, before: map<Path, Bytes>) {
    op.ending.Failure? && op.writes != [] && exists p :: p in before && p in op.writes[|op.writes| - 1].dirs
  }

  /** Deleting the only file, making a directory of its name, and failing. */
  lemma ObstructionExists() returns (op: Operation, before: map<Path, Bytes>)
    ensures op.Valid() && Obstructs(op, before)
  {
    before := map[["goals.json"] := []];
    op := Operation("1", [Tree(map[], {["goals.json"]})], Failure);
    assert ["goals.json"] in before && ["goals.json"] in op.writes[0].dirs;
  }

  /** run_recoverable: afterwards the stable files are those from before or those that all
      writes together produced, never a mixture. Once begun and not cut short, a failing
      operation loses the stable files exactly if it has turned one into a directory. */
  method RunRecoverable(disk: PlanDisk, op: Operation) returns (o: Outcome, begun: bool, lost: bool)
    requires disk.Inv() && op.Valid()
    modifies disk
    ensures disk.history == old(disk.history) ||
      (!op.ending.Failure? && disk.history == old(disk.history) + [AfterImage(op, old(disk.Stable()))])
    ensures o.Ok? ==> disk.Inv() && disk.txns == map[] && begun
    ensures o.Ok? ==> (op.ending.Failure? <==> disk.history == old(disk.history))
    ensures o.Ok? && !op.ending.Failure? && op.writes != [] ==> disk.plan == op.writes[|op.writes| - 1]
    ensures o.Ok? && (op.ending.Failure? || op.writes == []) ==> disk.plan.files == old(disk.Stable())
    ensures o.Err? ==> disk.history == old(disk.history) && if begun then op.ending.Failure? else disk.Stuck()
    ensures lost <==> !disk.Inv()
    ensures lost ==> begun && disk.txns == map[] && disk.history == old(disk.history)
    ensures lost ==> Obstructs(op, disk.Stable())
    ensures begun && !o.Crash? ==> (lost <==> Obstructs(op, old(disk.Stable())))
  {
    begun, lost := false, false;
    var txn: RecoveryTxn?;
    o, txn := Begin(disk, op.name);
    if !o.Ok? {
      return;
    }
    begun := true;
    for i := 0 to |op.writes|
      invariant txn.Pending() && disk.history == old(disk.history)
      invariant disk.plan == if i == 0 then disk.plan else op.writes[i - 1]
      invariant i == 0 ==> disk.plan.files == disk.Stable() && !Conflict(txn.manifest, disk.plan)
      invariant txn.manifest.baseline == disk.Stable().Keys
    {
      if * {
        return Crash, true, false;
      }
      disk.plan := op.writes[i];
    }
    if op.ending.Failure? {
      o := txn.Rollback();
      lost := o.Err?;
    } else {
      o := txn.Commit();
    }
  }

  /** From position `from` on, `history` holds the after-images of the operations at the indices
      `committed`, in the order of the run, each once and each over the one before it. */
  ghost predicate Commits(history: seq<map<Path, Bytes>>, from: nat, ops: seq<Operation>, committed: seq<nat>) {
    && 1 <= from && |history| == from + |committed|
    && (forall i, j :: 0 <= i < j < |committed| ==> committed[i] < committed[j])
    && (forall j :: 0 <= j < |committed| ==> IsAfterImage(history, from + j, ops, committed[j]))
  }

  ghost predicate IsAfterImage(history: seq<map<Path, Bytes>>, at: nat, ops: seq<Operation>, i: nat) {
    && 1 <= at < |history| && i < |ops| && !ops[i].ending.Failure?
    && history[at] == AfterImage(ops[i], history[at - 1])
  }

  lemma CommitsExtend(history: seq<map<Path, Bytes>>, from: nat, ops: seq<Operation>, committed: seq<nat>, i: nat)
    requires Commits(history, from, ops, committed)
    requires i < |ops| && !ops[i].ending.Failure? && forall c :: c in committed ==> c < i
    ensures Commits(history + [AfterImage(ops[i], history[|history| - 1])], from, ops, committed + [i])
  {
    var longer, all := history + [AfterImage(ops[i], history[|history| - 1])], committed + [i];
    forall j | 0 <= j < |all| ensures IsAfterImage(longer, from + j, ops, all[j]) {
      assert j < |committed| ==> IsAfterImage(history, from + j, ops, committed[j]);
    }
    forall j | 0 <= j < |committed| ensures committed[j] < i {
      assert committed[j] in committed;
    }
  }

  /** What the outcomes of the operations so far say about the history: an operation that
      returned Ok without failing has its image there; one that returned Err has none. */
  ghost predicate Accounts(history: seq<map<Path, Bytes>>, from: nat, ops: seq<Operation>,
      outcomes: seq<Outcome>, committed: seq<nat>) {
    && Commits(history, from, ops, committed) && |outcomes| <= |ops|
    && (forall i :: i in committed ==> i < |outcomes| && !outcomes[i].Err?)
    && (forall i :: 0 <= i < |outcomes| && outcomes[i].Ok? && !ops[i].ending.Failure? ==> i in committed)
  }

  lemma AccountsExtend(history: seq<map<Path, Bytes>>, from: nat, ops: seq<Operation>, outcomes: seq<Outcome>,
      committed: seq<nat>, o: Outcome, history': seq<map<Path, Bytes>>) returns (committed': seq<nat>)
    requires Accounts(history, from, ops, outcomes, committed) && |outcomes| < |ops|
    requires var op := ops[|outcomes|];
      && (history' == history ||
           (!op.ending.Failure? && history' == history + [AfterImage(op, history[|history| - 1])]))
      && (o.Ok? && !op.ending.Failure? ==> history' != history)
      && (o.Err? ==> history' == history)
    ensures Accounts(history', from, ops, outcomes + [o], committed')
  {
    committed' := committed;
    if history' != history {
      CommitsExtend(history, from, ops, committed, |outcomes|);
      committed' := committed + [|outcomes|];
    }
  }

  /** Any run of operations, each of which may end at any step, followed by recovery. The history
      grows by whole after-images only, in the order of the run, as the outcomes say. Only an
      obstructing operation ends the run early. */
  method Run(disk: PlanDisk, ops: seq<Operation>)
    returns (outcomes: seq<Outcome>, o: Outcome, intact: bool, ghost committed: seq<nat>)
    requires disk.Inv() && forall op :: op in ops ==> op.Valid()
    modifies disk
    ensures old(disk.history) <= disk.history
    ensures Accounts(disk.history, |old(disk.history)|, ops, outcomes, committed)
    ensures intact ==> disk.Inv() && |outcomes| == |ops|
    ensures intact && o.Ok? ==> disk.txns == map[] && disk.plan.files == disk.Stable()
    ensures !intact ==> outcomes != [] && Obstructs(ops[|outcomes| - 1], disk.Stable())
  {
    outcomes, committed := [], [];
    for i := 0 to |ops|
      invariant disk.Inv() && |outcomes| == i && old(disk.history) <= disk.history
      invariant Accounts(disk.history, |old(disk.history)|, ops, outcomes, committed)
    {
      ghost var before := disk.history;
      var begun, lost;
      o, begun, lost := RunRecoverable(disk, ops[i]);
      committed := AccountsExtend(before, |old(disk.history)|, ops, outcomes, committed, o, disk.history);
      outcomes := outcomes + [o];
      if lost {
        return outcomes, o, false, committed;
      }
    }
    o := disk.RecoverPending();
    return outcomes, o, true, committed;
  }

  method Deepest(s: set<Path>) returns (p: Path)
    requires s != {}
    ensures p in s && forall q :: q in s ==> |q| <= |p|
  {
    p :| p in s;
    var rest := s - {p};
    while rest != {}
      invariant rest <= s && p in s
      invariant forall q :: q in s - rest ==> |q| <= |p|
    {
      var q :| q in rest;
      rest := rest - {q};
      if |q| > |p| {
        p := q;
      }
    }
  }

  lemma RemovingEmptyDir(t: Tree, p: Path)
    requires t.Valid() && t.IsEmptyDir(p)
    ensures t.(dirs := t.dirs - {p}).Valid()
  {
    forall q, i | q in t.files.Keys + t.dirs && 1 <= i < |q| ensures q[..i] != p {
      assert q[..i] < q;
    }
  }
}
