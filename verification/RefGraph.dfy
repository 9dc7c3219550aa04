/** References between the root definitions: the two resolution walks and the
    depth-first search for cycles of references that consume no part of the instance
    (crates/mp/src/mini_schema.rs). */
module RefGraph {
  import opened Prelude
  import opened Digraph
  import opened JsonSchema

  // ---------- Resolution ----------

  /** validate_references: every reference of a compiled schema names a definition. */
  predicate RefsResolve(s: Schema, names: set<string>)
    decreases s
  {
    && (s.reference.Some? ==> s.reference.value in names)
    && (forall k :: k in s.properties ==> RefsResolve(s.properties[k], names))
    && (s.items.Some? ==> RefsResolve(s.items.value, names))
    && (forall i :: 0 <= i < |s.anyOf| ==> RefsResolve(s.anyOf[i], names))
  }

  /** validate_raw_references. Its precondition is what makes the program's `expect` on
      the prefix of a reference, and its error for a schema that is no object, unreachable:
      `ReferenceName` may be taken only of a value that has the prefix. */
  predicate RawRefsResolve(re: Regex, raw: Json, names: set<string>)
    requires WellFormed(re, raw)
    decreases raw
  {
    var f := raw.fields;
    && ("$ref" in f ==> ReferenceName(f["$ref"]) in names)
    && (forall keyword, k :: keyword in {"properties", "$defs"} && k in Entries(re, raw, keyword) ==>
         RawRefsResolve(re, Entries(re, raw, keyword)[k], names))
    && ("items" in f ==> RawRefsResolve(re, f["items"], names))
    && (forall i :: 0 <= i < |Branches(re, raw)| ==> RawRefsResolve(re, Branches(re, raw)[i], names))
  }

  /** The compiled walk accepts every definition that `raw` or a schema below it carries. */
  ghost predicate CarriedResolve(re: Regex, raw: Json, names: set<string>)
    requires WellFormed(re, raw)
  {
    forall sub :: Within(re, raw, sub) ==> OwnDefinitionsResolve(re, sub, names)
  }

  ghost predicate OwnDefinitionsResolve(re: Regex, raw: Json, names: set<string>)
    requires WellFormed(re, raw)
  {
    forall k :: k in Entries(re, raw, "$defs") ==> RefsResolve(Compiled(re, Entries(re, raw, "$defs")[k]), names)
  }

  /** The compiled walk, in terms of the raw parts. */
  lemma PartsResolve(re: Regex, raw: Json, names: set<string>)
    requires WellFormed(re, raw)
    ensures RefsResolve(Compiled(re, raw), names) <==>
      && ("$ref" in raw.fields ==> ReferenceName(raw.fields["$ref"]) in names)
      && (forall k :: k in Entries(re, raw, "properties") ==>
           RefsResolve(Compiled(re, Entries(re, raw, "properties")[k]), names))
      && ("items" in raw.fields ==> RefsResolve(Compiled(re, raw.fields["items"]), names))
      && (forall i :: 0 <= i < |Branches(re, raw)| ==> RefsResolve(Compiled(re, Branches(re, raw)[i]), names))
  {
    var s := Compiled(re, raw);
    forall k | k in s.properties ensures s.properties[k] == Compiled(re, Entries(re, raw, "properties")[k]) {}
    forall i | 0 <= i < |s.anyOf| ensures s.anyOf[i] == Compiled(re, Branches(re, raw)[i]) {}
  }

  ghost predicate WalksAgreeOn(re: Regex, raw: Json, names: set<string>)
    requires WellFormed(re, raw)
  {
    RawRefsResolve(re, raw, names) <==> RefsResolve(Compiled(re, raw), names) && CarriedResolve(re, raw, names)
  }

  /** The raw walk accepts exactly what the compiled walk accepts of the schema and of every
      definition carried at any depth: those, which compilation drops, are all the difference. */
  lemma {:induction false} WalksAgree(re: Regex, raw: Json, names: set<string>)
    requires WellFormed(re, raw)
    ensures WalksAgreeOn(re, raw, names)
    decreases raw
  {
    forall keyword, k | keyword in {"properties", "$defs"} && k in Entries(re, raw, keyword)
      ensures WalksAgreeOn(re, Entries(re, raw, keyword)[k], names)
    {
      WalksAgree(re, Entries(re, raw, keyword)[k], names);
    }
    if "items" in raw.fields {
      WalksAgree(re, raw.fields["items"], names);
    }
    forall i | 0 <= i < |Branches(re, raw)| ensures WalksAgreeOn(re, Branches(re, raw)[i], names) {
      WalksAgree(re, Branches(re, raw)[i], names);
    }
    CarriedByParts(re, raw, names);
    PartsResolve(re, raw, names);
    RawPartsResolve(re, raw, names);
  }

  lemma RawPartsResolve(re: Regex, raw: Json, names: set<string>)
    requires WellFormed(re, raw)
    ensures RawRefsResolve(re, raw, names) <==>
      && ("$ref" in raw.fields ==> ReferenceName(raw.fields["$ref"]) in names)
      && (forall keyword, k :: keyword in {"properties", "$defs"} && k in Entries(re, raw, keyword) ==>
           RawRefsResolve(re, Entries(re, raw, keyword)[k], names))
      && ("items" in raw.fields ==> RawRefsResolve(re, raw.fields["items"], names))
      && (forall i :: 0 <= i < |Branches(re, raw)| ==> RawRefsResolve(re, Branches(re, raw)[i], names))
  {}

  lemma CarriedByParts(re: Regex, raw: Json, names: set<string>)
    requires WellFormed(re, raw)
    ensures CarriedResolve(re, raw, names) <==>
      && OwnDefinitionsResolve(re, raw, names)
      && (forall keyword, k :: keyword in {"properties", "$defs"} && k in Entries(re, raw, keyword) ==>
           CarriedResolve(re, Entries(re, raw, keyword)[k], names))
      && ("items" in raw.fields ==> CarriedResolve(re, raw.fields["items"], names))
      && (forall i :: 0 <= i < |Branches(re, raw)| ==> CarriedResolve(re, Branches(re, raw)[i], names))
  {
    if CarriedResolve(re, raw, names) {
      assert Within(re, raw, raw);
    }
  }

  /** So what the raw walk accepts the compiled walk cannot reject. */
  lemma RawWalkCoversCompiledWalk(re: Regex, raw: Json, names: set<string>)
    requires WellFormed(re, raw) && RawRefsResolve(re, raw, names)
    ensures RefsResolve(Compiled(re, raw), names)
  {
    WalksAgree(re, raw, names);
  }

  // ---------- The zero-cost graph ----------

  /** zero_cost_ref_targets: the definitions a validation may enter on the same instance. */
  function ZeroCostTargets(s: Schema): seq<string>
    decreases s, 0
  {
    if s.reference.Some? then [s.reference.value] else BranchTargets(s.anyOf)
  }

  function BranchTargets(branches: seq<Schema>): seq<string>
    decreases branches, 0
  {
    if branches == [] then [] else ZeroCostTargets(branches[0]) + BranchTargets(branches[1..])
  }

  lemma {:induction false} BranchTargetsContain(branches: seq<Schema>, i: nat)
    requires i < |branches|
    ensures forall t :: t in ZeroCostTargets(branches[i]) ==> t in BranchTargets(branches)
  {
    if i > 0 {
      BranchTargetsContain(branches[1..], i - 1);
    }
  }

  function ZeroCostGraph(defs: map<string, Schema>): Graph {
    map n | n in defs :: ZeroCostTargets(defs[n])
  }

  // ---------- The depth-first search ----------

  /** The mutable state that `detect_ref_cycles` threads through its inner `walk`. */
  class CycleDetector {
    const defs: map<string, Schema>
    var visiting: set<string>
    var done: set<string>
    ghost var stack: seq<string>
    ghost var finished: seq<string>

    /** `visiting` is the current stack, a walk without repetition; `done` is closed under
        targets, in the order in which its members finished. */
    ghost predicate Valid()
      reads this
    {
      var g := ZeroCostGraph(defs);
      && IsWalk(g, stack) && Distinct(stack) && visiting == Elements(stack)
      && NextFirst(g, finished) && done == Elements(finished)
      && visiting !! done
    }

    constructor (defs: map<string, Schema>)
      ensures Valid() && this.defs == defs && stack == [] && done == {}
    {
      this.defs := defs;
      visiting, done, stack, finished := {}, {}, [], [];
    }

    ghost predicate MayEnter(name: string)
      reads this
    {
      stack == [] || name in Next(ZeroCostGraph(defs), stack[|stack| - 1])
    }

    /** On success `name` is done, `done` is still closed under targets, and `visiting`
        is again exactly the caller's stack. On failure there is a cycle. */
    method Walk(name: string) returns (ok: bool)
      requires Valid() && MayEnter(name)
      modifies this
      ensures ok ==> Valid() && stack == old(stack) && visiting == old(visiting)
      ensures ok ==> old(done) <= done && name in done
      ensures !ok ==> !Acyclic(ZeroCostGraph(defs))
      decreases Vertices(ZeroCostGraph(defs)) + {name} - visiting, name !in visiting
    {
      if name in done {
        return true;
      }
      if name in visiting {
        StackClosesCycle(ZeroCostGraph(defs), stack, name);
        return false;
      }
      Enter(name);
      if name in defs {
        var targets := ZeroCostTargets(defs[name]);
        var i := 0;
        while i < |targets|
          invariant 0 <= i <= |targets|
          invariant Valid() && stack == old(stack) + [name] && visiting == old(visiting) + {name}
          invariant old(done) <= done
          invariant forall j :: 0 <= j < i ==> targets[j] in done
        {
          assert ZeroCostGraph(defs)[name] == targets;
          ok := Walk(targets[i]);
          if !ok {
            return false;
          }
          i := i + 1;
        }
      }
      Leave(name, old(stack));
      return true;
    }

    method Enter(name: string)
      requires Valid() && MayEnter(name) && name !in visiting && name !in done
      modifies this`visiting, this`stack
      ensures Valid() && stack == old(stack) + [name] && visiting == old(visiting) + {name}
    {
      Pushed(ZeroCostGraph(defs), stack, name);
      visiting, stack := visiting + {name}, stack + [name];
    }

    method Leave(name: string, ghost below: seq<string>)
      requires Valid() && stack == below + [name]
      requires forall t :: t in Next(ZeroCostGraph(defs), name) ==> t in done
      modifies this
      ensures Valid() && stack == below && visiting == old(visiting) - {name} && done == old(done) + {name}
    {
      Popped(ZeroCostGraph(defs), below, name);
      assert name in stack && name !in done;
      Appended(ZeroCostGraph(defs), finished, name);
      assert Elements(finished + [name]) == Elements(finished) + {name};
      visiting, stack := visiting - {name}, stack[..|stack| - 1];
      done, finished := done + {name}, finished + [name];
    }
  }

  lemma StackClosesCycle(g: Graph, stack: seq<string>, name: string)
    requires IsWalk(g, stack) && name in stack && name in Next(g, stack[|stack| - 1])
    ensures !Acyclic(g)
  {
    var k := Position(stack, name);
    WalkAppend(g, stack, name);
    RepeatIsCycle(g, stack + [name], k, |stack|);
  }

  lemma Pushed(g: Graph, stack: seq<string>, name: string)
    requires IsWalk(g, stack) && Distinct(stack) && name !in stack
    requires stack == [] || name in Next(g, stack[|stack| - 1])
    ensures IsWalk(g, stack + [name]) && Distinct(stack + [name])
    ensures Elements(stack + [name]) == Elements(stack) + {name}
  {
    WalkAppend(g, stack, name);
    assert (stack + [name])[|stack|] == name;
  }

  lemma Popped(g: Graph, below: seq<string>, name: string)
    requires IsWalk(g, below + [name]) && Distinct(below + [name])
    ensures (below + [name])[..|below|] == below && IsWalk(g, below) && Distinct(below)
    ensures Elements(below) == Elements(below + [name]) - {name}
  {
    var stack := below + [name];
    assert stack[..|below|] == below;
    WalkSlice(g, stack, 0, |below|);
    assert stack[|below|] == name;
    forall i | 0 <= i < |below| ensures below[i] != name {
      assert stack[i] == below[i];
    }
    assert forall x :: x in stack <==> x in below || x == name;
  }

  /** detect_ref_cycles: succeeds exactly when the zero-cost graph has no cycle. */
  method DetectRefCycles(root: Schema, defs: map<string, Schema>) returns (ok: bool)
    ensures ok <==> Acyclic(ZeroCostGraph(defs))
  {
    var search := new CycleDetector(defs);
    var rootTargets := ZeroCostTargets(root);
    for i := 0 to |rootTargets|
      invariant search.Valid() && search.stack == [] && search.defs == defs
    {
      ok := search.Walk(rootTargets[i]);
      if !ok {
        return false;
      }
    }
    var names := defs.Keys;
    while names != {}
      invariant names <= defs.Keys
      invariant search.Valid() && search.stack == [] && search.defs == defs
      invariant forall n :: n in defs && n !in names ==> n in search.done
    {
      var name :| name in names;
      ok := search.Walk(name);
      if !ok {
        return false;
      }
      names := names - {name};
    }
    assert Ranks(ZeroCostGraph(defs), search.finished);
    RankedIsAcyclic(ZeroCostGraph(defs));
    return true;
  }
}
