/**
 What shutdown conditions mean: a tree of conditions, some of them marked, with a
 condition closed as soon as it or a condition above it is marked.
 */
module ShutdownTree {
  import opened Common

  /** parents[n] is the condition n was made a child of; handles are the values the program holds, clones included. */
  datatype Tree = Tree(parents: seq<Option<nat>>, handles: seq<nat>, marked: set<nat>)

  /** What a program can do with the conditions it holds. */
  datatype Op = NewRoot | Child(of: nat) | Clone(of: nat) | Mark(of: nat)

  predicate WellFormed(t: Tree) {
    && (forall n :: 0 <= n < |t.parents| && t.parents[n].Some? ==> t.parents[n].value < n)
    && (forall h :: 0 <= h < |t.handles| ==> t.handles[h] < |t.parents|)
    && (forall n :: n in t.marked ==> n < |t.parents|)
  }

  predicate CanDo(t: Tree, op: Op) {
    op.NewRoot? || op.of < |t.handles|
  }

  function Do(t: Tree, op: Op): (r: Tree)
    requires WellFormed(t) && CanDo(t, op)
    ensures WellFormed(r)
  {
    match op
    case NewRoot => t.(parents := t.parents + [None], handles := t.handles + [|t.parents|])
    case Child(h) => t.(parents := t.parents + [Some(t.handles[h])], handles := t.handles + [|t.parents|])
    case Clone(h) => t.(handles := t.handles + [t.handles[h]])
    case Mark(h) => t.(marked := t.marked + {t.handles[h]})
  }

  predicate CanDoAll(t: Tree, ops: seq<Op>)
    requires WellFormed(t)
    decreases |ops|
  {
    ops != [] ==> CanDo(t, ops[0]) && CanDoAll(Do(t, ops[0]), ops[1..])
  }

  function DoAll(t: Tree, ops: seq<Op>): (r: Tree)
    requires WellFormed(t) && CanDoAll(t, ops)
    ensures WellFormed(r)
    decreases |ops|
  {
    if ops == [] then t else DoAll(Do(t, ops[0]), ops[1..])
  }

  const EMPTY := Tree([], [], {})

  /** The conditions from the root down to n. */
  function Path(t: Tree, n: nat): (p: seq<nat>)
    requires WellFormed(t) && n < |t.parents|
    ensures p != [] && p[|p| - 1] == n
    ensures forall i :: 0 <= i < |p| ==> p[i] <= n && p[i] < |t.parents|
    decreases n
  {
    if t.parents[n] == None then [n] else Path(t, t.parents[n].value) + [n]
  }

  /** A condition is closed if it or a condition above it is marked. */
  predicate Closed(t: Tree, n: nat)
    requires WellFormed(t) && n < |t.parents|
    decreases n
  {
    n in t.marked || (t.parents[n].Some? && Closed(t, t.parents[n].value))
  }

  lemma {:induction false} ClosedIffMarkedOnPath(t: Tree, n: nat)
    requires WellFormed(t) && n < |t.parents|
    ensures Closed(t, n) <==> exists a :: a in Path(t, n) && a in t.marked
    decreases n
  {
    if t.parents[n].Some? {
      ClosedIffMarkedOnPath(t, t.parents[n].value);
      var up := Path(t, t.parents[n].value);
      assert Path(t, n) == up + [n];
      assert forall a :: a in Path(t, n) <==> a in up || a == n;
    } else {
      assert Path(t, n) == [n];
    }
  }

  /** Growing the tree changes neither the path nor the answer of any condition there was. */
  lemma {:induction false} GrowthChangesNothing(t: Tree, op: Op, n: nat)
    requires WellFormed(t) && CanDo(t, op) && !op.Mark? && n < |t.parents|
    ensures Path(Do(t, op), n) == Path(t, n)
    ensures Closed(Do(t, op), n) == Closed(t, n)
    decreases n
  {
    if t.parents[n].Some? {
      GrowthChangesNothing(t, op, t.parents[n].value);
    }
  }

  /** Marking a condition closes exactly it and the conditions below it. */
  lemma {:induction false} MarkClosesExactlyBelow(t: Tree, h: nat, n: nat)
    requires WellFormed(t) && h < |t.handles| && n < |t.parents|
    ensures Path(Do(t, Mark(h)), n) == Path(t, n)
    ensures Closed(Do(t, Mark(h)), n) <==> Closed(t, n) || t.handles[h] in Path(t, n)
    decreases n
  {
    if t.parents[n].Some? {
      MarkClosesExactlyBelow(t, h, t.parents[n].value);
    }
  }

  /** In particular a mark changes no answer above it or beside it. */
  lemma MarkSparesOthers(t: Tree, h: nat, n: nat)
    requires WellFormed(t) && h < |t.handles| && n < |t.parents| && t.handles[h] !in Path(t, n)
    ensures Closed(Do(t, Mark(h)), n) == Closed(t, n)
  {
    MarkClosesExactlyBelow(t, h, n);
  }

  /** A condition above another is not below it. */
  lemma AboveIsNotBelow(t: Tree, a: nat, n: nat)
    requires WellFormed(t) && n < |t.parents| && a in Path(t, n) && a != n
    ensures n !in Path(t, a)
  {
    var i :| 0 <= i < |Path(t, n)| && Path(t, n)[i] == a;
    assert forall x :: x in Path(t, a) ==> x <= a;
  }

  /** Once closed, a condition stays closed, whatever is done later. */
  lemma {:induction false} ClosedStaysClosed(t: Tree, ops: seq<Op>, n: nat)
    requires WellFormed(t) && CanDoAll(t, ops) && n < |t.parents| && Closed(t, n)
    ensures n < |DoAll(t, ops).parents| && Closed(DoAll(t, ops), n)
    decreases |ops|
  {
    if ops != [] {
      if ops[0].Mark? {
        MarkClosesExactlyBelow(t, ops[0].of, n);
      } else {
        GrowthChangesNothing(t, ops[0], n);
      }
      ClosedStaysClosed(Do(t, ops[0]), ops[1..], n);
    }
  }
}
