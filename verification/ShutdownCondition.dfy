/**
 Shutdown conditions as they are built: each is a list of shared flags, one for
 every condition from the root down to it.
 */
module ShutdownCondition {
  import opened Common
  import opened ShutdownTree

  class AtomicFlag {
    var value: bool

    constructor ()
      ensures !value
    {
      value := false;
    }
  }

  /** Copies of a condition share its flags. */
  datatype ShutdownCondition = ShutdownCondition(flags: seq<AtomicFlag>) {

    static method Default() returns (c: ShutdownCondition)
      ensures |c.flags| == 1 && fresh(c.flags[0]) && !c.flags[0].value
    {
      var flag := new AtomicFlag();
      return ShutdownCondition([flag]);
    }

    method ChildCondition() returns (child: ShutdownCondition)
      ensures |child.flags| == |flags| + 1 && child.flags[..|flags|] == flags
      ensures fresh(child.flags[|flags|]) && !child.flags[|flags|].value
    {
      var flag := new AtomicFlag();
      return ShutdownCondition(flags + [flag]);
    }

    method MarkForShutdown()
      requires flags != []
      modifies flags[|flags| - 1]
      ensures flags[|flags| - 1].value
    {
      flags[|flags| - 1].value := true;
    }

    method ShouldClose() returns (b: bool)
      ensures b == AnySet()
    {
      for i := 0 to |flags|
        invariant forall k :: 0 <= k < i ==> !flags[k].value
      {
        if flags[i].value {
          return true;
        }
      }
      return false;
    }

    predicate AnySet()
      reads flags
    {
      exists k :: 0 <= k < |flags| && flags[k].value
    }
  }

  /** The flags of the conditions on a path. */
  ghost function FlagsOn(flagOf: seq<AtomicFlag>, path: seq<nat>): seq<AtomicFlag>
    requires forall i :: 0 <= i < |path| ==> path[i] < |flagOf|
  {
    seq(|path|, i requires 0 <= i < |path| => flagOf[path[i]])
  }

  ghost predicate Distinct(flagOf: seq<AtomicFlag>) {
    forall m, n :: 0 <= m < n < |flagOf| ==> flagOf[m] != flagOf[n]
  }

  /** Every condition holds the flags from its root down to it, and no two conditions of the tree share a flag. */
  ghost predicate Represents(t: Tree, flagOf: seq<AtomicFlag>, conditions: seq<ShutdownCondition>) {
    && WellFormed(t) && |flagOf| == |t.parents| && |conditions| == |t.handles|
    && Distinct(flagOf)
    && forall h :: 0 <= h < |conditions| ==> conditions[h].flags == FlagsOn(flagOf, Path(t, t.handles[h]))
  }

  lemma FlagsOnGrows(flagOf: seq<AtomicFlag>, flag: AtomicFlag, path: seq<nat>)
    requires forall i :: 0 <= i < |path| ==> path[i] < |flagOf|
    ensures FlagsOn(flagOf + [flag], path) == FlagsOn(flagOf, path)
  {
  }

  /** A new condition leaves the flags on all earlier paths as they were. */
  lemma PathKept(t: Tree, flagOf: seq<AtomicFlag>, op: Op, flag: AtomicFlag, n: nat)
    requires WellFormed(t) && |flagOf| == |t.parents| && CanDo(t, op) && (op.NewRoot? || op.Child?) && n < |t.parents|
    ensures FlagsOn(flagOf + [flag], Path(Do(t, op), n)) == FlagsOn(flagOf, Path(t, n))
  {
    GrowthChangesNothing(t, op, n);
    FlagsOnGrows(flagOf, flag, Path(t, n));
  }

  /** The path of a new condition is that of its parent and itself. */
  lemma NewPath(t: Tree, flagOf: seq<AtomicFlag>, op: Op, flag: AtomicFlag)
    requires WellFormed(t) && |flagOf| == |t.parents| && CanDo(t, op) && (op.NewRoot? || op.Child?)
    ensures FlagsOn(flagOf + [flag], Path(Do(t, op), |t.parents|))
         == (if op.NewRoot? then [] else FlagsOn(flagOf, Path(t, t.handles[op.of]))) + [flag]
  {
    if op.Child? {
      PathKept(t, flagOf, op, flag, t.handles[op.of]);
      assert Path(Do(t, op), |t.parents|) == Path(Do(t, op), t.handles[op.of]) + [|t.parents|];
    }
  }

  lemma AddRepresents(t: Tree, flagOf: seq<AtomicFlag>, conditions: seq<ShutdownCondition>, op: Op, c: ShutdownCondition, flag: AtomicFlag)
    requires Represents(t, flagOf, conditions) && CanDo(t, op) && (op.NewRoot? || op.Child?) && flag !in flagOf
    requires c.flags == (if op.NewRoot? then [] else conditions[op.of].flags) + [flag]
    ensures Represents(Do(t, op), flagOf + [flag], conditions + [c])
  {
    var t', flagOf', conditions' := Do(t, op), flagOf + [flag], conditions + [c];
    NewPath(t, flagOf, op, flag);
    forall h | 0 <= h < |conditions'|
      ensures conditions'[h].flags == FlagsOn(flagOf', Path(t', t'.handles[h]))
    {
      if h < |conditions| {
        PathKept(t, flagOf, op, flag, t.handles[h]);
      }
    }
  }

  lemma CloneRepresents(t: Tree, flagOf: seq<AtomicFlag>, conditions: seq<ShutdownCondition>, h: nat)
    requires Represents(t, flagOf, conditions) && h < |conditions|
    ensures Represents(Do(t, Clone(h)), flagOf, conditions + [conditions[h]])
  {
    var t', conditions' := Do(t, Clone(h)), conditions + [conditions[h]];
    forall k | 0 <= k < |conditions'|
      ensures conditions'[k].flags == FlagsOn(flagOf, Path(t', t'.handles[k]))
    {
      GrowthChangesNothing(t, Clone(h), t'.handles[k]);
    }
  }

  lemma MarkRepresents(t: Tree, flagOf: seq<AtomicFlag>, conditions: seq<ShutdownCondition>, h: nat)
    requires Represents(t, flagOf, conditions) && h < |conditions|
    ensures Represents(Do(t, Mark(h)), flagOf, conditions)
    ensures conditions[h].flags != [] && conditions[h].flags[|conditions[h].flags| - 1] == flagOf[t.handles[h]]
  {
    forall k | 0 <= k < |conditions|
      ensures conditions[k].flags == FlagsOn(flagOf, Path(Do(t, Mark(h)), t.handles[k]))
    {
      MarkClosesExactlyBelow(t, h, t.handles[k]);
    }
  }

  /** A program's conditions, side by side with the tree they stand for. */
  class Program {
    var conditions: seq<ShutdownCondition>
    ghost var tree: Tree
    /** The flag of each condition of the tree. */
    ghost var flagOf: seq<AtomicFlag>

    ghost predicate Valid()
      reads this, flagOf
    {
      && Represents(tree, flagOf, conditions)
      && forall n :: 0 <= n < |flagOf| ==> flagOf[n].value == (n in tree.marked)
    }

    ghost function Flags(): set<AtomicFlag>
      reads this
    {
      set f | f in flagOf
    }

    constructor ()
      ensures Valid() && tree == EMPTY && conditions == []
    {
      conditions, tree, flagOf := [], EMPTY, [];
    }

    /** Does one operation; the flags follow the tree. */
    method Perform(op: Op)
      requires Valid() && CanDo(tree, op)
      modifies this, Flags()
      ensures Valid() && tree == Do(old(tree), op)
      ensures fresh(Flags() - old(Flags()))
    {
      match op {
        case NewRoot =>
          var c := ShutdownCondition.Default();
          Add(c, op, c.flags[0]);
        case Child(h) =>
          ghost var above := conditions[h].flags;
          var c := conditions[h].ChildCondition();
          assert c.flags == above + [c.flags[|above|]];
          Add(c, op, c.flags[|above|]);
        case Clone(h) =>
          CloneRepresents(tree, flagOf, conditions, h);
          conditions, tree := conditions + [conditions[h]], Do(tree, op);
        case Mark(h) =>
          MarkAt(h);
      }
    }

    method MarkAt(h: nat)
      requires Valid() && h < |conditions|
      modifies this`tree, Flags()
      ensures Valid() && tree == Do(old(tree), Mark(h)) && Flags() == old(Flags())
    {
      MarkRepresents(tree, flagOf, conditions, h);
      conditions[h].MarkForShutdown();
      tree := Do(tree, Mark(h));
    }

    method Add(c: ShutdownCondition, ghost op: Op, ghost flag: AtomicFlag)
      requires Valid() && CanDo(tree, op) && (op.NewRoot? || op.Child?) && flag !in flagOf && !flag.value
      requires c.flags == (if op.NewRoot? then [] else conditions[op.of].flags) + [flag]
      modifies this
      ensures Valid() && tree == Do(old(tree), op) && Flags() == old(Flags()) + {flag}
    {
      AddRepresents(tree, flagOf, conditions, op, c, flag);
      conditions, flagOf, tree := conditions + [c], flagOf + [flag], Do(tree, op);
    }

    /** Asking a condition gives the answer of the tree. */
    method Ask(h: nat) returns (b: bool)
      requires Valid() && h < |conditions|
      ensures b == Closed(tree, tree.handles[h])
    {
      ghost var path := Path(tree, tree.handles[h]);
      ClosedIffMarkedOnPath(tree, tree.handles[h]);
      b := conditions[h].ShouldClose();
      assert forall k :: 0 <= k < |path| ==> conditions[h].flags[k].value == (path[k] in tree.marked);
    }

    /** After any operations, every condition is closed exactly when the tree says so. */
    method PerformAll(ops: seq<Op>)
      requires Valid() && CanDoAll(tree, ops)
      modifies this, Flags()
      ensures Valid() && tree == DoAll(old(tree), ops)
    {
      var i := 0;
      while i < |ops|
        invariant 0 <= i <= |ops| && Valid() && CanDoAll(tree, ops[i..])
        invariant DoAll(tree, ops[i..]) == DoAll(old(tree), ops)
        invariant fresh(Flags() - old(Flags()))
      {
        assert ops[i..][1..] == ops[i + 1..];
        Perform(ops[i]);
        i := i + 1;
      }
    }
  }
}
