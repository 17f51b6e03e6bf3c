/**
 A binary max-heap in a growable array, ordered by Frames.Compare: the priority
 queue the sorter keeps its waiting pictures in. Pop returns some greatest frame,
 that is, one with a least picture order count.
 */
module BinaryHeap {
  import opened Common
  import opened Frames

  function Parent(j: int): (p: int)
    requires 1 <= j
    ensures 0 <= p < j
  {
    (j - 1) / 2
  }

  /** Position j and position i are in heap order. */
  ghost predicate InOrder<T>(s: seq<DecodeResult<T>>, i: int, j: int) {
    0 <= i < |s| && 0 <= j < |s| ==> Compare(s[i], s[j]) != Less
  }

  ghost predicate Ordered<T>(s: seq<DecodeResult<T>>) {
    forall j :: 1 <= j < |s| ==> InOrder(s, Parent(j), j)
  }

  /** In order, except perhaps for the pair of i and its parent. */
  ghost predicate OrderedButUp<T>(s: seq<DecodeResult<T>>, i: int) {
    && (forall j :: 1 <= j < |s| && j != i ==> InOrder(s, Parent(j), j))
    && (forall j :: 1 <= j < |s| && Parent(j) == i && 1 <= i ==> InOrder(s, Parent(i), j))
  }

  /** In order, except perhaps for the pairs of i and its children. */
  ghost predicate OrderedButDown<T>(s: seq<DecodeResult<T>>, i: int) {
    && (forall j :: 1 <= j < |s| && Parent(j) != i ==> InOrder(s, Parent(j), j))
    && (forall j :: 1 <= j < |s| && Parent(j) == i && 1 <= i ==> InOrder(s, Parent(i), j))
  }

  function Swap<T>(s: seq<T>, i: nat, j: nat): (r: seq<T>)
    requires i < |s| && j < |s|
    ensures |r| == |s| && multiset(r) == multiset(s)
    ensures forall k :: 0 <= k < |s| ==> r[k] == (if k == i then s[j] else if k == j then s[i] else s[k])
  {
    s[i := s[j]][j := s[i]]
  }

  lemma {:induction false} RootIsGreatest<T>(s: seq<DecodeResult<T>>, i: nat)
    requires Ordered(s) && i < |s|
    ensures InOrder(s, 0, i)
    decreases i
  {
    if i > 0 {
      RootIsGreatest(s, Parent(i));
      assert InOrder(s, Parent(i), i);
    }
  }

  /** Moving a frame up past a smaller parent moves the one unordered place up. */
  lemma SiftUpStep<T>(s: seq<DecodeResult<T>>, i: nat)
    requires 1 <= i < |s| && OrderedButUp(s, i)
    requires Compare(s[i], s[Parent(i)]) == Greater
    ensures OrderedButUp(Swap(s, i, Parent(i)), Parent(i))
  {
    var p, r := Parent(i), Swap(s, i, Parent(i));
    forall j | 1 <= j < |s| && j != p
      ensures InOrder(r, Parent(j), j)
    {
      assert j != i ==> InOrder(s, Parent(j), j);
      assert Parent(j) == i ==> InOrder(s, p, j);
    }
    forall j | 1 <= j < |s| && Parent(j) == p && 1 <= p
      ensures InOrder(r, Parent(p), j)
    {
      assert InOrder(s, Parent(p), p);
      assert j != i ==> InOrder(s, Parent(j), j);
    }
  }

  /** Moving a frame down past its greater child moves the one unordered place down. */
  lemma SiftDownStep<T>(s: seq<DecodeResult<T>>, i: nat, c: nat)
    requires i < c < |s| && Parent(c) == i && OrderedButDown(s, i)
    requires forall j :: 1 <= j < |s| && Parent(j) == i ==> InOrder(s, c, j)
    requires Compare(s[i], s[c]) == Less
    ensures OrderedButDown(Swap(s, i, c), c)
  {
    var r := Swap(s, i, c);
    forall j | 1 <= j < |s| && Parent(j) != c
      ensures InOrder(r, Parent(j), j)
    {
      assert Parent(j) != i ==> InOrder(s, Parent(j), j);
      assert Parent(j) == i ==> InOrder(s, c, j);
      if j == i {
        assert InOrder(s, Parent(i), c);
      }
    }
    forall j | 1 <= j < |s| && Parent(j) == c
      ensures InOrder(r, Parent(c), j)
    {
      assert InOrder(s, Parent(j), j);
    }
  }

  /** A frame that is not below its greater child is in its place. */
  lemma OrderedHere<T>(s: seq<DecodeResult<T>>, i: nat, c: nat)
    requires i < c < |s| && OrderedButDown(s, i)
    requires forall j :: 1 <= j < |s| && Parent(j) == i ==> InOrder(s, c, j)
    requires Compare(s[i], s[c]) != Less
    ensures Ordered(s)
  {
    forall j | 1 <= j < |s| ensures InOrder(s, Parent(j), j) {
      assert Parent(j) == i ==> InOrder(s, c, j);
    }
  }

  class BinaryHeap<T> {
    var data: seq<DecodeResult<T>>

    ghost predicate Valid()
      reads this
    {
      Ordered(data)
    }

    ghost function Contents(): multiset<DecodeResult<T>>
      reads this
    {
      multiset(data)
    }

    constructor ()
      ensures Valid() && Contents() == multiset{} && data == []
    {
      data := [];
    }

    method Push(x: DecodeResult<T>)
      requires Valid()
      modifies this
      ensures Valid()
      ensures Contents() == old(Contents()) + multiset{x}
      ensures |data| == old(|data|) + 1
    {
      data := data + [x];
      forall j | 1 <= j < |data| - 1
        ensures InOrder(data, Parent(j), j)
      {
        assert InOrder(old(data), Parent(j), j);
      }
      SiftUp(|data| - 1);
    }

    method SiftUp(start: nat)
      requires start < |data| && OrderedButUp(data, start)
      modifies this
      ensures Valid() && |data| == old(|data|) && Contents() == old(Contents())
    {
      var i := start;
      while i > 0
        invariant 0 <= i < |data| == old(|data|)
        invariant OrderedButUp(data, i)
        invariant multiset(data) == old(multiset(data))
      {
        if Compare(data[i], data[Parent(i)]) != Greater {
          return;
        }
        SiftUpStep(data, i);
        data := Swap(data, i, Parent(i));
        i := Parent(i);
      }
    }

    method Pop() returns (x: Option<DecodeResult<T>>)
      requires Valid()
      modifies this
      ensures Valid()
      ensures old(data) == [] ==> x == None && data == []
      ensures old(data) != [] ==> x.Some? && |data| == old(|data|) - 1
      ensures old(data) != [] ==> old(Contents()) == Contents() + multiset{x.value}
      ensures old(data) != [] ==> forall y :: y in Contents() ==> Count(x.value) <= Count(y)
    {
      if |data| == 0 {
        return None;
      }
      x := Some(data[0]);
      RemoveRoot();
      assert multiset(old(data)) == multiset(old(data)[1..]) + multiset{x.value} by {
        assert old(data) == [x.value] + old(data)[1..];
      }
      forall y | y in Contents()
        ensures Count(x.value) <= Count(y)
      {
        assert y in old(data)[1..];
        var i :| 0 <= i < |old(data)| && old(data)[i] == y;
        RootIsGreatest(old(data), i);
      }
    }

    /** Takes the root out: the last frame replaces it and sinks to its place. */
    method RemoveRoot()
      requires Valid() && data != []
      modifies this
      ensures Valid() && |data| == old(|data|) - 1
      ensures Contents() == multiset(old(data)[1..])
    {
      var last := data[|data| - 1];
      data := data[..|data| - 1];
      if |data| > 0 {
        assert old(data)[1..] == data[1..] + [last];
        assert [last] + data[1..] == data[0 := last];
        data := data[0 := last];
        forall j | 1 <= j < |data| && Parent(j) != 0
          ensures InOrder(data, Parent(j), j)
        {
          assert InOrder(old(data), Parent(j), j);
        }
        SiftDown();
      }
    }

    /** The child that comes first in heap order; the second one if they are equal. */
    method GreaterChild(i: nat) returns (child: nat)
      requires 2 * i + 1 < |data|
      ensures i < child < |data| && Parent(child) == i
      ensures forall j :: 1 <= j < |data| && Parent(j) == i ==> InOrder(data, child, j)
    {
      child := 2 * i + 1;
      if child + 1 < |data| && Compare(data[child], data[child + 1]) != Greater {
        child := child + 1;
      }
    }

    method SiftDown()
      requires OrderedButDown(data, 0)
      modifies this
      ensures Valid() && |data| == old(|data|) && Contents() == old(Contents())
    {
      var i := 0;
      while 2 * i + 1 < |data|
        invariant 0 <= i && |data| == old(|data|)
        invariant OrderedButDown(data, i)
        invariant multiset(data) == old(multiset(data))
        decreases |data| - i
      {
        var child := GreaterChild(i);
        if Compare(data[i], data[child]) != Less {
          OrderedHere(data, i, child);
          return;
        }
        SiftDownStep(data, i, child);
        data := Swap(data, i, child);
        i := child;
      }
    }
  }
}
