/**
 The order in which a whole stream should be presented, and exactly when the
 sorter delivers it: cut at the IDR pictures, and sort each piece in between.
 */
module Presentation {
  import opened Common
  import opened Frames
  import opened Reordering

  function InsertByCount<T>(x: DecodeResult<T>, s: seq<DecodeResult<T>>): seq<DecodeResult<T>> {
    if s == [] || Count(x) <= Count(s[0]) then [x] + s else [s[0]] + InsertByCount(x, s[1..])
  }

  function SortByCount<T>(s: seq<DecodeResult<T>>): seq<DecodeResult<T>> {
    if s == [] then [] else InsertByCount(s[0], SortByCount(s[1..]))
  }

  /** How many pictures come before the first IDR. */
  function PieceLength<T>(s: seq<DecodeResult<T>>): (k: nat)
    ensures k <= |s| && (k < |s| ==> s[k].metadata.isIdr)
    ensures forall i :: 0 <= i < k ==> !s[i].metadata.isIdr
  {
    if s == [] || s[0].metadata.isIdr then 0 else 1 + PieceLength(s[1..])
  }

  /** Sort up to the first IDR, present the IDR, go on after it. */
  function PresentationOrder<T>(s: seq<DecodeResult<T>>): seq<DecodeResult<T>>
    decreases |s|
  {
    var k := PieceLength(s);
    SortByCount(s[..k]) + if k == |s| then [] else [s[k]] + PresentationOrder(s[k + 1..])
  }

  ghost predicate DistinctCounts<T>(s: seq<DecodeResult<T>>) {
    forall i, j :: 0 <= i < j < |s| ==> Count(s[i]) != Count(s[j])
  }

  function PieceBound<T>(piece: seq<DecodeResult<T>>): nat {
    if piece == [] then 0 else piece[0].metadata.maxNumReorderFrames
  }

  /** Between IDRs the bound is fixed and picture order counts are distinct. */
  ghost predicate WellFormedStream<T>(s: seq<DecodeResult<T>>)
    decreases |s|
  {
    var k := PieceLength(s);
    && IsPiece(s[..k], PieceBound(s[..k]))
    && DistinctCounts(s[..k])
    && (k < |s| ==> WellFormedStream(s[k + 1..]))
  }

  /** Between IDRs no picture is displaced further than the bound allows. */
  ghost predicate EveryPieceWithinReorder<T>(s: seq<DecodeResult<T>>)
    decreases |s|
  {
    var k := PieceLength(s);
    && WithinReorder(s[..k], PieceBound(s[..k]))
    && (k < |s| ==> EveryPieceWithinReorder(s[k + 1..]))
  }

  // ---- Sorting ----

  lemma {:induction false} InsertKeepsElements<T>(x: DecodeResult<T>, s: seq<DecodeResult<T>>)
    ensures multiset(InsertByCount(x, s)) == multiset{x} + multiset(s)
  {
    if s != [] && Count(x) > Count(s[0]) {
      InsertKeepsElements(x, s[1..]);
      assert s == [s[0]] + s[1..];
    }
  }

  lemma {:induction false} InsertSorts<T>(x: DecodeResult<T>, s: seq<DecodeResult<T>>)
    requires Sorted(s)
    ensures Sorted(InsertByCount(x, s))
  {
    if s != [] && Count(x) > Count(s[0]) {
      InsertSorts(x, s[1..]);
      InsertKeepsElements(x, s[1..]);
      assert s == [s[0]] + s[1..];
      HeadBefore(s[0], x, s[1..], InsertByCount(x, s[1..]));
    }
  }

  lemma HeadBefore<T>(head: DecodeResult<T>, x: DecodeResult<T>, s: seq<DecodeResult<T>>, t: seq<DecodeResult<T>>)
    requires Sorted([head] + s) && Sorted(t) && Count(head) < Count(x) && multiset(t) == multiset{x} + multiset(s)
    ensures Sorted([head] + t)
  {
    forall i | 0 <= i < |t|
      ensures Count(head) <= Count(t[i])
    {
      assert t[i] in multiset(t);
      assert t[i] in multiset{x} + multiset(s);
      if t[i] != x {
        var j :| 0 <= j < |s| && s[j] == t[i];
        assert ([head] + s)[j + 1] == s[j] && ([head] + s)[0] == head;
      }
    }
  }

  lemma {:induction false} SortSorts<T>(s: seq<DecodeResult<T>>)
    ensures Sorted(SortByCount(s)) && multiset(SortByCount(s)) == multiset(s)
    ensures |SortByCount(s)| == |s|
  {
    if s != [] {
      SortSorts(s[1..]);
      InsertSorts(s[0], SortByCount(s[1..]));
      InsertKeepsElements(s[0], SortByCount(s[1..]));
      assert s == [s[0]] + s[1..];
    }
    SameSize(SortByCount(s), s);
  }

  ghost predicate CountsIdentify<T>(w: multiset<DecodeResult<T>>) {
    forall x, y :: x in w && y in w && Count(x) == Count(y) ==> x == y
  }

  /** Where counts identify pictures, a drain of w is determined by how many it takes. */
  lemma {:induction false} DrainsAgree<T>(w: multiset<DecodeResult<T>>, a: seq<DecodeResult<T>>, ra: multiset<DecodeResult<T>>,
                                          b: seq<DecodeResult<T>>, rb: multiset<DecodeResult<T>>)
    requires Drains(w, a, ra) && Drains(w, b, rb) && |a| == |b| && CountsIdentify(w)
    ensures a == b && ra == rb
    decreases |a|
  {
    if a == [] {
      DrainedNothing(w, a, ra);
      DrainedNothing(w, b, rb);
    } else {
      FirstsAgree(w, a, ra, b, rb);
      DropFirst(w, a, ra);
      DropFirst(w, b, rb);
      DrainsAgree(w - multiset{a[0]}, a[1..], ra, b[1..], rb);
      SameHeadAndTail(a, b);
    }
  }

  lemma SameHeadAndTail<T>(a: seq<T>, b: seq<T>)
    requires a != [] && b != [] && a[0] == b[0] && a[1..] == b[1..]
    ensures a == b
  {
    assert a == [a[0]] + a[1..] && b == [b[0]] + b[1..];
  }

  lemma FirstsAgree<T>(w: multiset<DecodeResult<T>>, a: seq<DecodeResult<T>>, ra: multiset<DecodeResult<T>>,
                       b: seq<DecodeResult<T>>, rb: multiset<DecodeResult<T>>)
    requires Drains(w, a, ra) && Drains(w, b, rb) && a != [] && b != [] && CountsIdentify(w)
    ensures a[0] == b[0] && CountsIdentify(w - multiset{a[0]})
  {
    FirstIsLeast(w, a, ra);
    FirstIsLeast(w, b, rb);
    assert forall x :: x in w - multiset{a[0]} ==> x in w;
  }

  lemma DrainedNothing<T>(w: multiset<DecodeResult<T>>, a: seq<DecodeResult<T>>, r: multiset<DecodeResult<T>>)
    requires Drains(w, a, r) && a == []
    ensures r == w
  {
  }

  lemma FirstIsLeast<T>(w: multiset<DecodeResult<T>>, a: seq<DecodeResult<T>>, r: multiset<DecodeResult<T>>)
    requires Drains(w, a, r) && a != []
    ensures a[0] in w && forall x :: x in w ==> Count(a[0]) <= Count(x)
  {
    assert a[0] in multiset(a);
    forall x | x in w ensures Count(a[0]) <= Count(x) {
      if x in r {
        assert NoneAbove(multiset(a), Count(x));
      } else {
        assert x in multiset(a);
        var i :| 0 <= i < |a| && a[i] == x;
      }
    }
  }

  lemma DropFirst<T>(w: multiset<DecodeResult<T>>, a: seq<DecodeResult<T>>, r: multiset<DecodeResult<T>>)
    requires Drains(w, a, r) && a != []
    ensures Drains(w - multiset{a[0]}, a[1..], r)
  {
    assert a == [a[0]] + a[1..];
    assert multiset(a) == multiset{a[0]} + multiset(a[1..]);
    assert w - multiset{a[0]} == multiset(a[1..]) + r;
    assert forall x :: x in multiset(a[1..]) ==> x in multiset(a);
  }

  /** An arrangement of a piece is its sorted form exactly when it is sorted. */
  lemma SortedIffSortByCount<T>(out: seq<DecodeResult<T>>, s: seq<DecodeResult<T>>)
    requires multiset(out) == multiset(s) && DistinctCounts(s)
    ensures Sorted(out) <==> out == SortByCount(s)
  {
    SortSorts(s);
    SameSize(out, s);
    forall x, y | x in multiset(s) && y in multiset(s) && Count(x) == Count(y)
      ensures x == y
    {
      assert x in s && y in s;
    }
    if Sorted(out) {
      DrainsAgree(multiset(s), out, multiset{}, SortByCount(s), multiset{});
    }
  }

  // ---- The sorter against the presentation order ----

  /**
   A flushed run of put presents the stream in presentation order if and only if
   every piece between IDRs keeps within its reorder bound.
   */
  lemma {:induction false} PresentsIffWithinReorder<T>(run: Run<T>, flushed: seq<DecodeResult<T>>)
    requires run.Valid() && run.Origin() == multiset{} && Drains(run.Waiting(), flushed, multiset{})
    requires WellFormedStream(run.Inputs())
    ensures run.Outputs() + flushed == PresentationOrder(run.Inputs()) <==> EveryPieceWithinReorder(run.Inputs())
    decreases |run.Inputs()|
  {
    var s := run.Inputs();
    var k := PieceLength(s);
    if k == |s| {
      assert s[..k] == s;
      PieceIff(run, flushed, s);
    } else {
      var early, popped, late := CutAtIdr(run, k);
      PieceIff(early, popped, s[..k]);
      PresentsIffWithinReorder(late, flushed);
      PieceSize(early, popped, s[..k]);
      SplitEquality(run.Outputs(), early.Outputs() + popped, s[k], late.Outputs(), flushed,
                    SortByCount(s[..k]), PresentationOrder(s[k + 1..]));
    }
  }

  lemma PieceSize<T>(run: Run<T>, flushed: seq<DecodeResult<T>>, piece: seq<DecodeResult<T>>)
    requires run.Valid() && run.Origin() == multiset{} && Drains(run.Waiting(), flushed, multiset{})
    requires run.Inputs() == piece
    ensures |run.Outputs() + flushed| == |SortByCount(piece)|
  {
    FlushedOutputs(run, flushed);
    SortSorts(piece);
  }

  lemma PieceIff<T>(run: Run<T>, flushed: seq<DecodeResult<T>>, piece: seq<DecodeResult<T>>)
    requires run.Valid() && run.Origin() == multiset{} && Drains(run.Waiting(), flushed, multiset{})
    requires run.Inputs() == piece && IsPiece(piece, PieceBound(piece)) && DistinctCounts(piece)
    ensures run.Outputs() + flushed == SortByCount(piece) <==> WithinReorder(piece, PieceBound(piece))
  {
    OrderedIffWithinReorder(run, flushed, PieceBound(piece));
    FlushedOutputs(run, flushed);
    SortedIffSortByCount(run.Outputs() + flushed, piece);
  }

  lemma SplitEquality<T>(out: seq<T>, a: seq<T>, x: T, b: seq<T>, flushed: seq<T>, a': seq<T>, b': seq<T>)
    requires out == a + [x] + b && |a| == |a'|
    ensures out + flushed == a' + ([x] + b') <==> a == a' && b + flushed == b'
  {
    PutTogether(out, a, x, b, flushed);
    PutTogether(a' + [x] + b', a', x, b', []);
    assert a' + ([x] + b') == a' + [x] + b' + [];
    assert b' + [] == b';
  }

  /** Two runs over the same inputs agree wherever no two waiting pictures tie, however the puts were batched. */
  lemma {:induction false} RunsAgree<T>(a: Run<T>, b: Run<T>)
    requires a.Valid() && b.Valid() && a.Origin() == b.Origin() && a.Inputs() == b.Inputs()
    requires NoTies(a)
    ensures a.Outputs() == b.Outputs() && a.Waiting() == b.Waiting()
    decreases a
  {
    if a.Put? {
      SameLast(a.before.Inputs(), a.frame, b.before.Inputs(), b.frame);
      RunsAgree(a.before, b.before);
      StepsAgree(a.before.Waiting(), a.frame, a.popped, a.rest, b.popped, b.rest);
    }
  }

  lemma StepsAgree<T>(w: multiset<DecodeResult<T>>, frame: DecodeResult<T>, a: seq<DecodeResult<T>>, ra: multiset<DecodeResult<T>>,
                      b: seq<DecodeResult<T>>, rb: multiset<DecodeResult<T>>)
    requires PutStep(w, frame, a, ra) && PutStep(w, frame, b, rb) && CountsIdentify(w + multiset{frame})
    ensures a == b && ra == rb
  {
    var queue := if frame.metadata.isIdr then w else w + multiset{frame};
    assert |queue| == |a| + |ra| == |b| + |rb|;
    assert CountsIdentify(queue) by {
      assert forall x :: x in queue ==> x in w + multiset{frame};
    }
    DrainsAgree(queue, a, ra, b, rb);
  }

  lemma SameLast<T>(a: seq<T>, x: T, b: seq<T>, y: T)
    requires a + [x] == b + [y]
    ensures a == b && x == y
  {
    assert a == (a + [x])[..|a|] && b == (b + [y])[..|b|];
    assert (a + [x])[|a|] == x && (b + [y])[|b|] == y;
  }

  /** At no put do two different waiting pictures have the same count. */
  ghost predicate NoTies<T>(run: Run<T>) {
    run.Put? ==> NoTies(run.before) && CountsIdentify(run.before.Waiting() + multiset{run.frame})
  }
}
