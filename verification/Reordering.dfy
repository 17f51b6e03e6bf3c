/**
 What a run of the frame sorter is, and what its output means.

 A run records, put by put, which waiting pictures were popped and which still
 wait. Ties between equal picture order counts may be broken either way, so the
 results hold for every priority queue.
 */
module Reordering {
  import opened Common
  import opened Frames

  ghost predicate Sorted<T>(s: seq<DecodeResult<T>>) {
    forall i, j :: 0 <= i < j < |s| ==> Count(s[i]) <= Count(s[j])
  }

  ghost predicate NoneAbove<T>(a: multiset<DecodeResult<T>>, c: int) {
    forall x :: x in a ==> Count(x) <= c
  }

  ghost predicate AllBefore<T>(a: multiset<DecodeResult<T>>, b: multiset<DecodeResult<T>>) {
    forall y :: y in b ==> NoneAbove(a, Count(y))
  }

  /** Popping a greatest frame again and again takes out, and leaves rest behind. */
  ghost predicate Drains<T>(waiting: multiset<DecodeResult<T>>, out: seq<DecodeResult<T>>,
                            rest: multiset<DecodeResult<T>>) {
    && waiting == multiset(out) + rest
    && Sorted(out)
    && AllBefore(multiset(out), rest)
  }

  /** One put: an IDR picture empties the queue, any other waits in a queue of bounded size. */
  ghost predicate PutStep<T>(waiting: multiset<DecodeResult<T>>, frame: DecodeResult<T>,
                             popped: seq<DecodeResult<T>>, rest: multiset<DecodeResult<T>>) {
    if frame.metadata.isIdr then
      Drains(waiting, popped, multiset{}) && rest == multiset{}
    else
      && Drains(waiting + multiset{frame}, popped, rest)
      && |rest| == Min(|waiting| + 1, frame.metadata.maxNumReorderFrames)
  }

  /** What a put emits: an IDR picture follows the pictures it drove out. */
  function Emitted<T>(frame: DecodeResult<T>, popped: seq<DecodeResult<T>>): seq<DecodeResult<T>> {
    if frame.metadata.isIdr then popped + [frame] else popped
  }

  datatype Run<T(==)> =
    | Start(initial: multiset<DecodeResult<T>>)
    | Put(before: Run<T>, frame: DecodeResult<T>, popped: seq<DecodeResult<T>>, rest: multiset<DecodeResult<T>>)
  {
    function Origin(): multiset<DecodeResult<T>> {
      if Start? then initial else before.Origin()
    }

    function Inputs(): seq<DecodeResult<T>> {
      if Start? then [] else before.Inputs() + [frame]
    }

    function Outputs(): seq<DecodeResult<T>> {
      if Start? then [] else before.Outputs() + Emitted(frame, popped)
    }

    function Waiting(): multiset<DecodeResult<T>> {
      if Start? then initial else rest
    }

    ghost predicate Valid() {
      Put? ==> before.Valid() && PutStep(before.Waiting(), frame, popped, rest)
    }

    /** The first k puts. */
    function Prefix(k: nat): (r: Run<T>)
      requires k <= |Inputs()|
    {
      if |Inputs()| == k then this else before.Prefix(k)
    }

    /** The puts after the first k. */
    function Suffix(k: nat): (r: Run<T>)
      requires k <= |Inputs()|
    {
      if |Inputs()| == k then Start(Waiting()) else Put(before.Suffix(k), frame, popped, rest)
    }

    function Then(next: Run<T>): Run<T> {
      if next.Start? then this else Put(this.Then(next.before), next.frame, next.popped, next.rest)
    }
  }

  /** Cutting a run into two batches changes neither its outputs nor what waits at the end. */
  lemma Split<T>(run: Run<T>, k: nat)
    requires run.Valid() && k <= |run.Inputs()|
    ensures run.Prefix(k).Valid() && run.Prefix(k).Origin() == run.Origin()
    ensures run.Prefix(k).Inputs() == run.Inputs()[..k]
    ensures run.Suffix(k).Valid() && run.Suffix(k).Origin() == run.Prefix(k).Waiting()
    ensures run.Suffix(k).Inputs() == run.Inputs()[k..]
    ensures run.Suffix(k).Waiting() == run.Waiting()
    ensures run.Outputs() == run.Prefix(k).Outputs() + run.Suffix(k).Outputs()
  {
    PrefixIsRun(run, k);
    SuffixIsRun(run, k);
    SplitOutputs(run, k);
  }

  lemma {:induction false} PrefixIsRun<T>(run: Run<T>, k: nat)
    requires run.Valid() && k <= |run.Inputs()|
    ensures run.Prefix(k).Valid() && run.Prefix(k).Origin() == run.Origin()
    ensures run.Prefix(k).Inputs() == run.Inputs()[..k]
    decreases run
  {
    if |run.Inputs()| > k {
      PrefixIsRun(run.before, k);
    }
  }

  lemma SuffixIsRun<T>(run: Run<T>, k: nat)
    requires run.Valid() && k <= |run.Inputs()|
    ensures run.Suffix(k).Valid() && run.Suffix(k).Origin() == run.Prefix(k).Waiting()
    ensures run.Suffix(k).Inputs() == run.Inputs()[k..]
    ensures run.Suffix(k).Waiting() == run.Waiting()
  {
    SuffixIsValid(run, k);
    SuffixInputs(run, k);
  }

  lemma {:induction false} SuffixIsValid<T>(run: Run<T>, k: nat)
    requires run.Valid() && k <= |run.Inputs()|
    ensures run.Suffix(k).Valid() && run.Suffix(k).Origin() == run.Prefix(k).Waiting()
    ensures run.Suffix(k).Waiting() == run.Waiting()
    decreases run
  {
    if |run.Inputs()| > k {
      SuffixIsValid(run.before, k);
    }
  }

  lemma {:induction false} SuffixInputs<T>(run: Run<T>, k: nat)
    requires k <= |run.Inputs()|
    ensures run.Suffix(k).Inputs() == run.Inputs()[k..]
    decreases run
  {
    if |run.Inputs()| > k {
      SuffixInputs(run.before, k);
      var s := run.before.Inputs();
      assert (s + [run.frame])[k..] == s[k..] + [run.frame];
    }
  }

  lemma {:induction false} SplitOutputs<T>(run: Run<T>, k: nat)
    requires k <= |run.Inputs()|
    ensures run.Outputs() == run.Prefix(k).Outputs() + run.Suffix(k).Outputs()
    decreases run
  {
    if |run.Inputs()| > k {
      SplitOutputs(run.before, k);
    }
  }

  /** Two batches, one after the other, are one run of all their inputs. */
  lemma Join<T>(first: Run<T>, second: Run<T>)
    requires first.Valid() && second.Valid() && second.Origin() == first.Waiting()
    ensures first.Then(second).Valid() && first.Then(second).Origin() == first.Origin()
    ensures first.Then(second).Inputs() == first.Inputs() + second.Inputs()
    ensures first.Then(second).Outputs() == first.Outputs() + second.Outputs()
    ensures first.Then(second).Waiting() == second.Waiting()
  {
    JoinIsRun(first, second);
    JoinInputs(first, second);
    JoinOutputs(first, second);
  }

  lemma {:induction false} JoinIsRun<T>(first: Run<T>, second: Run<T>)
    requires first.Valid() && second.Valid() && second.Origin() == first.Waiting()
    ensures first.Then(second).Valid() && first.Then(second).Origin() == first.Origin()
    ensures first.Then(second).Waiting() == second.Waiting()
    decreases second
  {
    if second.Put? {
      JoinIsRun(first, second.before);
    }
  }

  lemma {:induction false} JoinInputs<T>(first: Run<T>, second: Run<T>)
    ensures first.Then(second).Inputs() == first.Inputs() + second.Inputs()
    decreases second
  {
    if second.Put? {
      JoinInputs(first, second.before);
    }
  }

  lemma {:induction false} JoinOutputs<T>(first: Run<T>, second: Run<T>)
    ensures first.Then(second).Outputs() == first.Outputs() + second.Outputs()
    decreases second
  {
    if second.Put? {
      JoinOutputs(first, second.before);
    }
  }

  // ---- Conservation and delay, for all streams and all bounds ----

  lemma StepConserves<T>(waiting: multiset<DecodeResult<T>>, frame: DecodeResult<T>,
                         popped: seq<DecodeResult<T>>, rest: multiset<DecodeResult<T>>)
    requires PutStep(waiting, frame, popped, rest)
    ensures multiset(Emitted(frame, popped)) + rest == waiting + multiset{frame}
  {
  }

  /** Emitted and waiting pictures together are exactly the ones put in. */
  lemma {:induction false} Conservation<T>(run: Run<T>)
    requires run.Valid()
    ensures multiset(run.Outputs()) + run.Waiting() == run.Origin() + multiset(run.Inputs())
    decreases run
  {
    if run.Put? {
      Conservation(run.before);
      var waiting, emitted := run.before.Waiting(), Emitted(run.frame, run.popped);
      StepConserves(waiting, run.frame, run.popped, run.rest);
      AddStep(run.before.Outputs(), emitted, run.before.Inputs(), run.frame, waiting, run.rest, run.Origin());
    }
  }

  lemma AddStep<T>(out: seq<T>, emitted: seq<T>, inputs: seq<T>, x: T, waiting: multiset<T>, rest: multiset<T>,
                   origin: multiset<T>)
    requires multiset(out) + waiting == origin + multiset(inputs)
    requires multiset(emitted) + rest == waiting + multiset{x}
    ensures multiset(out + emitted) + rest == origin + multiset(inputs + [x])
  {
    var a, b := multiset(out), multiset(emitted);
    assert a + b + rest == a + (b + rest) == (a + waiting) + multiset{x};
    assert origin + multiset(inputs + [x]) == origin + multiset(inputs) + multiset{x};
  }

  /** After a put no more pictures wait than that put's bound, and none after an IDR. */
  lemma WaitingIsBounded<T>(run: Run<T>)
    requires run.Valid() && run.Put?
    ensures |run.Waiting()| <= if run.frame.metadata.isIdr then 0 else run.frame.metadata.maxNumReorderFrames
    ensures |run.Outputs()| + |run.Waiting()| == |run.Origin()| + |run.Inputs()|
  {
    Conservation(run);
    var o, w, g, i := run.Outputs(), run.Waiting(), run.Origin(), run.Inputs();
    assert |multiset(o) + w| == |o| + |w| && |g + multiset(i)| == |g| + |i|;
  }

  /** An IDR picture is presented exactly at its decoding position, after exactly the pictures decoded before it. */
  lemma IdrKeepsPosition<T>(run: Run<T>, flushed: seq<DecodeResult<T>>, k: nat)
    requires run.Valid() && run.Origin() == multiset{} && Drains(run.Waiting(), flushed, multiset{})
    requires k < |run.Inputs()| && run.Inputs()[k].metadata.isIdr
    ensures |run.Outputs() + flushed| == |run.Inputs()|
    ensures (run.Outputs() + flushed)[k] == run.Inputs()[k]
    ensures multiset((run.Outputs() + flushed)[..k]) == multiset(run.Inputs()[..k])
    ensures multiset((run.Outputs() + flushed)[k + 1..]) == multiset(run.Inputs()[k + 1..])
  {
    var early, popped, late := CutAtIdr(run, k);
    FlushedOutputs(early, popped);
    FlushedOutputs(late, flushed);
    PutTogether(run.Outputs(), early.Outputs() + popped, run.Inputs()[k], late.Outputs(), flushed);
  }

  /** A run that ends in a flush presents exactly the pictures it was given. */
  lemma FlushedOutputs<T>(run: Run<T>, flushed: seq<DecodeResult<T>>)
    requires run.Valid() && run.Origin() == multiset{} && Drains(run.Waiting(), flushed, multiset{})
    ensures multiset(run.Outputs() + flushed) == multiset(run.Inputs())
    ensures |run.Outputs() + flushed| == |run.Inputs()|
  {
    Conservation(run);
    FlushAll(run.Outputs(), flushed, run.Waiting(), run.Inputs());
  }

  lemma FlushAll<T>(out: seq<T>, flushed: seq<T>, waiting: multiset<T>, inputs: seq<T>)
    requires multiset(out) + waiting == multiset{} + multiset(inputs) && waiting == multiset(flushed) + multiset{}
    ensures multiset(out + flushed) == multiset(inputs) && |out + flushed| == |inputs|
  {
    assert waiting == multiset(flushed);
    assert multiset(out + flushed) == multiset(inputs);
    assert |multiset(out + flushed)| == |out + flushed|;
  }

  lemma SameSize<T>(a: seq<T>, b: seq<T>)
    requires multiset(a) == multiset(b)
    ensures |a| == |b|
  {
    assert |multiset(a)| == |a| && |multiset(b)| == |b|;
  }

  lemma PutTogether<T>(out: seq<T>, a: seq<T>, x: T, b: seq<T>, flushed: seq<T>)
    requires out == a + [x] + b
    ensures out + flushed == a + [x] + (b + flushed)
    ensures (out + flushed)[..|a|] == a && (out + flushed)[|a|] == x && (out + flushed)[|a| + 1..] == b + flushed
  {
  }

  /** A run cut at picture k: up to it, the pictures it drove out, and a run after it that starts with an empty queue. */
  ghost predicate IsCutAt<T>(run: Run<T>, k: nat, early: Run<T>, popped: seq<DecodeResult<T>>, late: Run<T>)
    requires k < |run.Inputs()|
  {
    && early.Valid() && early.Origin() == run.Origin() && early.Inputs() == run.Inputs()[..k]
    && late.Valid() && late.Origin() == multiset{} && late.Inputs() == run.Inputs()[k + 1..]
    && late.Waiting() == run.Waiting()
    && Drains(early.Waiting(), popped, multiset{})
    && run.Outputs() == early.Outputs() + popped + [run.Inputs()[k]] + late.Outputs()
  }

  /** Every run can be cut at an IDR. */
  lemma CutAtIdr<T>(run: Run<T>, k: nat) returns (early: Run<T>, popped: seq<DecodeResult<T>>, late: Run<T>)
    requires run.Valid() && k < |run.Inputs()| && run.Inputs()[k].metadata.isIdr
    ensures IsCutAt(run, k, early, popped, late)
  {
    PrefixIsRun(run, k + 1);
    SuffixIsRun(run, k + 1);
    SplitOutputs(run, k + 1);
    var upTo := run.Prefix(k + 1);
    early, popped, late := upTo.before, upTo.popped, run.Suffix(k + 1);
    LastInput(run.Inputs(), k, early.Inputs(), upTo.frame);
    Associates(early.Outputs(), popped, [upTo.frame], late.Outputs());
  }

  lemma Associates<T>(a: seq<T>, b: seq<T>, c: seq<T>, d: seq<T>)
    ensures a + (b + c) + d == a + b + c + d
  {
  }

  lemma LastInput<T>(s: seq<T>, k: nat, t: seq<T>, x: T)
    requires k < |s| && s[..k + 1] == t + [x]
    ensures s[k] == x && s[..k] == t
  {
    assert s[k] == s[..k + 1][k];
    assert s[..k] == s[..k + 1][..k];
  }

  // ---- How far a picture may be displaced ----

  /** How many pictures of s come after count c in presentation order. */
  function CountAbove<T>(s: seq<DecodeResult<T>>, c: int): nat {
    if s == [] then 0
    else CountAbove(s[..|s| - 1], c) + if Count(s[|s| - 1]) > c then 1 else 0
  }

  /** No picture has more than m pictures decoded before it and presented after it. */
  ghost predicate WithinReorder<T>(s: seq<DecodeResult<T>>, m: nat) {
    forall i :: 0 <= i < |s| ==> CountAbove(s[..i], Count(s[i])) <= m
  }

  function Above<T(==)>(s: seq<DecodeResult<T>>, c: int): multiset<DecodeResult<T>> {
    if s == [] then multiset{}
    else Above(s[..|s| - 1], c) + if Count(s[|s| - 1]) > c then multiset{s[|s| - 1]} else multiset{}
  }

  lemma {:induction false} AboveIsFilter<T>(s: seq<DecodeResult<T>>, c: int)
    ensures |Above(s, c)| == CountAbove(s, c)
    ensures forall x :: Above(s, c)[x] == if Count(x) > c then multiset(s)[x] else 0
  {
    if s != [] {
      var t, x := s[..|s| - 1], s[|s| - 1];
      AboveIsFilter(t, c);
      assert s == t + [x];
    }
  }

  lemma SubmultisetIsSmaller<T>(a: multiset<T>, b: multiset<T>)
    requires forall x :: a[x] <= b[x]
    ensures |a| <= |b|
  {
    assert b == a + (b - a);
  }

  /** A part of s that lies wholly above c is no larger than CountAbove. */
  lemma CountsPart<T>(s: seq<DecodeResult<T>>, part: multiset<DecodeResult<T>>, c: int)
    requires part <= multiset(s) && forall x :: x in part ==> Count(x) > c
    ensures |part| <= CountAbove(s, c)
  {
    AboveIsFilter(s, c);
    SubmultisetIsSmaller(part, Above(s, c));
  }

  /** If no emitted picture is above c, all those above c still wait. */
  lemma WaitsAbove<T>(s: seq<DecodeResult<T>>, out: multiset<DecodeResult<T>>, rest: multiset<DecodeResult<T>>, c: int)
    requires multiset(s) == out + rest && NoneAbove(out, c)
    ensures CountAbove(s, c) <= |rest|
  {
    AboveIsFilter(s, c);
    forall x ensures Above(s, c)[x] <= rest[x] {
      assert multiset(s)[x] == out[x] + rest[x];
      assert Count(x) > c ==> x !in out;
    }
    SubmultisetIsSmaller(Above(s, c), rest);
  }

  // ---- When the output is in order ----

  /** All pictures use one bound and none is an IDR: one piece of a stream. */
  ghost predicate IsPiece<T>(s: seq<DecodeResult<T>>, m: nat) {
    forall i :: 0 <= i < |s| ==> !s[i].metadata.isIdr && s[i].metadata.maxNumReorderFrames == m
  }

  /** Every picture in out was popped from a queue of more than m pictures. */
  ghost predicate Backed<T>(s: seq<DecodeResult<T>>, out: multiset<DecodeResult<T>>, m: nat) {
    forall c :: CountAbove(s, c) <= m ==> NoneAbove(out, c)
  }

  lemma SortedConcat<T>(a: seq<DecodeResult<T>>, b: seq<DecodeResult<T>>)
    requires Sorted(a) && Sorted(b) && AllBefore(multiset(a), multiset(b))
    ensures Sorted(a + b)
  {
    forall i, j | 0 <= i < |a| && 0 <= j < |b|
      ensures Count(a[i]) <= Count(b[j])
    {
      assert a[i] in multiset(a) && b[j] in multiset(b);
    }
  }

  /** One put keeps the output sorted and below the waiting pictures. */
  lemma PutKeepsOrder<T>(s: seq<DecodeResult<T>>, frame: DecodeResult<T>, out: seq<DecodeResult<T>>,
                         waiting: multiset<DecodeResult<T>>, popped: seq<DecodeResult<T>>,
                         rest: multiset<DecodeResult<T>>, m: nat)
    requires Drains(waiting + multiset{frame}, popped, rest)
    requires Sorted(out) && AllBefore(multiset(out), waiting) && Backed(s, multiset(out), m)
    requires CountAbove(s, Count(frame)) <= m
    ensures Sorted(out + popped) && AllBefore(multiset(out + popped), rest)
  {
    var queue := waiting + multiset{frame};
    assert AllBefore(multiset(out), queue);
    assert forall x :: x in multiset(popped) || x in rest ==> x in queue;
    SortedConcat(out, popped);
    assert multiset(out + popped) == multiset(out) + multiset(popped);
  }

  /** One put keeps the output backed. */
  lemma PutKeepsBacking<T>(s: seq<DecodeResult<T>>, frame: DecodeResult<T>, out: seq<DecodeResult<T>>,
                           waiting: multiset<DecodeResult<T>>, popped: seq<DecodeResult<T>>,
                           rest: multiset<DecodeResult<T>>, m: nat)
    requires Drains(waiting + multiset{frame}, popped, rest) && |rest| == Min(|waiting| + 1, m)
    requires multiset(s) == multiset(out) + waiting && |waiting| <= m
    requires Backed(s, multiset(out), m)
    ensures Backed(s + [frame], multiset(out + popped), m)
  {
    var t, queue := s + [frame], waiting + multiset{frame};
    assert multiset(out + popped) == multiset(out) + multiset(popped);
    forall c | CountAbove(t, c) <= m
      ensures NoneAbove(multiset(out + popped), c)
    {
      assert t[..|s|] == s;
      NewOutputIsBacked(t, queue, popped, rest, m, c);
    }
  }

  lemma NewOutputIsBacked<T>(s: seq<DecodeResult<T>>, queue: multiset<DecodeResult<T>>,
                             popped: seq<DecodeResult<T>>, rest: multiset<DecodeResult<T>>, m: nat, c: int)
    requires Drains(queue, popped, rest) && queue <= multiset(s)
    requires |queue| <= m + 1 && |rest| == Min(|queue|, m) && CountAbove(s, c) <= m
    ensures NoneAbove(multiset(popped), c)
  {
    assert |queue| == |popped| + |rest|;
    if popped != [] && Count(popped[0]) > c {
      assert popped == [popped[0]];
      forall x | x in queue
        ensures Count(x) > c
      {
        assert x in rest ==> NoneAbove(multiset(popped), Count(x));
        assert popped[0] in multiset(popped);
      }
      CountsPart(s, queue, c);
    }
  }

  lemma {:induction false} BoundGivesOrder<T>(run: Run<T>, m: nat)
    requires run.Valid() && run.Origin() == multiset{}
    requires IsPiece(run.Inputs(), m) && WithinReorder(run.Inputs(), m)
    ensures Sorted(run.Outputs()) && AllBefore(multiset(run.Outputs()), run.Waiting())
    ensures Backed(run.Inputs(), multiset(run.Outputs()), m)
    ensures |run.Waiting()| <= m
    decreases run
  {
    if run.Put? {
      var prev, s := run.before, run.before.Inputs();
      PieceOfPrefix(s, run.frame, m);
      BoundGivesOrder(prev, m);
      Conservation(prev);
      PutKeepsOrder(s, run.frame, prev.Outputs(), prev.Waiting(), run.popped, run.rest, m);
      PutKeepsBacking(s, run.frame, prev.Outputs(), prev.Waiting(), run.popped, run.rest, m);
    }
  }

  lemma PieceOfPrefix<T>(s: seq<DecodeResult<T>>, frame: DecodeResult<T>, m: nat)
    requires IsPiece(s + [frame], m)
    ensures IsPiece(s, m) && !frame.metadata.isIdr && frame.metadata.maxNumReorderFrames == m
    ensures WithinReorder(s + [frame], m) <==> WithinReorder(s, m) && CountAbove(s, Count(frame)) <= m
  {
    var t := s + [frame];
    assert t[|s|] == frame && t[..|s|] == s;
    assert forall i :: 0 <= i < |s| ==> t[i] == s[i] && t[..i] == s[..i];
  }

  lemma QueueWithinBound<T>(run: Run<T>, m: nat)
    requires run.Valid() && run.Origin() == multiset{} && IsPiece(run.Inputs(), m)
    ensures |run.Waiting()| <= m
  {
    if run.Put? {
      PieceOfPrefix(run.before.Inputs(), run.frame, m);
    }
  }

  /** A picture with too many larger ones before it is presented after one of them. */
  lemma DisorderShows<T>(run: Run<T>, flushed: seq<DecodeResult<T>>, m: nat, i: nat)
    requires run.Valid() && run.Origin() == multiset{} && Drains(run.Waiting(), flushed, multiset{})
    requires IsPiece(run.Inputs(), m) && i < |run.Inputs()|
    requires CountAbove(run.Inputs()[..i], Count(run.Inputs()[i])) > m
    ensures !Sorted(run.Outputs() + flushed)
  {
    var f := run.Inputs()[i];
    PrefixIsRun(run, i);
    SuffixIsRun(run, i);
    SplitOutputs(run, i);
    var early, late := run.Prefix(i), run.Suffix(i);
    PieceOfTake(run.Inputs(), m, i);
    var e := LargerWasEmitted(early, m, Count(f));
    StillPresented(late, flushed, f);
    OutOfOrder(early.Outputs(), late.Outputs(), flushed, e, f);
  }

  lemma PieceOfTake<T>(s: seq<DecodeResult<T>>, m: nat, i: nat)
    requires IsPiece(s, m) && i <= |s|
    ensures IsPiece(s[..i], m)
  {
  }

  lemma LargerWasEmitted<T>(run: Run<T>, m: nat, c: int) returns (e: DecodeResult<T>)
    requires run.Valid() && run.Origin() == multiset{} && IsPiece(run.Inputs(), m)
    requires CountAbove(run.Inputs(), c) > m
    ensures e in run.Outputs() && Count(e) > c
  {
    Conservation(run);
    QueueWithinBound(run, m);
    if NoneAbove(multiset(run.Outputs()), c) {
      WaitsAbove(run.Inputs(), multiset(run.Outputs()), run.Waiting(), c);
    }
    e :| e in multiset(run.Outputs()) && Count(e) > c;
  }

  lemma StillPresented<T>(run: Run<T>, flushed: seq<DecodeResult<T>>, f: DecodeResult<T>)
    requires run.Valid() && Drains(run.Waiting(), flushed, multiset{})
    requires run.Inputs() != [] && run.Inputs()[0] == f
    ensures f in run.Outputs() + flushed
  {
    Conservation(run);
    assert f in run.Origin() + multiset(run.Inputs());
    assert f in multiset(run.Outputs()) || f in multiset(flushed) + multiset{};
  }

  lemma OutOfOrder<T>(a: seq<DecodeResult<T>>, b: seq<DecodeResult<T>>, flushed: seq<DecodeResult<T>>,
                      e: DecodeResult<T>, f: DecodeResult<T>)
    requires e in a && f in b + flushed && Count(e) > Count(f)
    ensures !Sorted(a + b + flushed)
  {
    var i :| 0 <= i < |a| && a[i] == e;
    var j :| 0 <= j < |b + flushed| && (b + flushed)[j] == f;
    assert (a + b + flushed)[i] == e && (a + b + flushed)[|a| + j] == f;
  }

  /**
   The bound is exactly right: a stretch of pictures with one bound m comes out in
   nondecreasing order if and only if no picture has more than m pictures decoded
   before it and presented after it.
   */
  lemma OrderedIffWithinReorder<T>(run: Run<T>, flushed: seq<DecodeResult<T>>, m: nat)
    requires run.Valid() && run.Origin() == multiset{} && Drains(run.Waiting(), flushed, multiset{})
    requires IsPiece(run.Inputs(), m)
    ensures Sorted(run.Outputs() + flushed) <==> WithinReorder(run.Inputs(), m)
  {
    if WithinReorder(run.Inputs(), m) {
      BoundGivesOrder(run, m);
      SortedConcat(run.Outputs(), flushed);
    } else {
      var i :| 0 <= i < |run.Inputs()| && CountAbove(run.Inputs()[..i], Count(run.Inputs()[i])) > m;
      DisorderShows(run, flushed, m, i);
    }
  }
}
