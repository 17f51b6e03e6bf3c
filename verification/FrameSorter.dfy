/** The frame sorter: an object holding a priority queue of pictures that wait for their turn. */
module FrameSorter {
  import opened Common
  import opened Frames
  import Heap = BinaryHeap
  import opened Reordering
  import opened Presentation

  /** Popping one more least picture extends a drain. */
  lemma DrainOneMore<T>(waiting: multiset<DecodeResult<T>>, out: seq<DecodeResult<T>>, x: DecodeResult<T>,
                        rest: multiset<DecodeResult<T>>)
    requires Drains(waiting, out, rest + multiset{x})
    requires forall y :: y in rest ==> Count(x) <= Count(y)
    ensures Drains(waiting, out + [x], rest)
  {
    assert multiset(out + [x]) == multiset(out) + multiset{x};
    assert NoneAbove(multiset(out), Count(x));
    SortedConcat(out, [x]);
  }

  lemma DrainNone<T>(waiting: multiset<DecodeResult<T>>)
    ensures Drains(waiting, [], waiting)
  {
  }

  /** A run from the given queue over the given inputs, with this result. */
  ghost predicate RunGives<T>(run: Run<T>, origin: multiset<DecodeResult<T>>, inputs: seq<DecodeResult<T>>, result: seq<OutputFrame<T>>) {
    run.Valid() && run.Origin() == origin && run.Inputs() == inputs && Shows(result, run.Outputs())
  }

  lemma TakeOneMore<T>(s: seq<T>, i: nat)
    requires i < |s|
    ensures s[..i + 1] == s[..i] + [s[i]]
  {
  }

  /** Appending what a put emits to the result, and the put to the run. */
  lemma OneMorePut<T>(run: Run<T>, frame: DecodeResult<T>, popped: seq<DecodeResult<T>>, rest: multiset<DecodeResult<T>>,
                      result: seq<OutputFrame<T>>, sorted: seq<OutputFrame<T>>)
    requires run.Valid() && PutStep(run.Waiting(), frame, popped, rest)
    requires Shows(result, run.Outputs()) && Shows(sorted, Emitted(frame, popped))
    ensures var run' := Run.Put(run, frame, popped, rest);
            && run'.Valid() && run'.Origin() == run.Origin() && run'.Waiting() == rest
            && run'.Inputs() == run.Inputs() + [frame]
            && Shows(result + sorted, run'.Outputs())
  {
    ShowsConcat(result, run.Outputs(), sorted, Emitted(frame, popped));
  }

  lemma ShowsConcat<T>(a: seq<OutputFrame<T>>, x: seq<DecodeResult<T>>, b: seq<OutputFrame<T>>, y: seq<DecodeResult<T>>)
    requires Shows(a, x) && Shows(b, y)
    ensures Shows(a + b, x + y)
  {
  }

  /** Frames that show some decoded ones show what is to be shown of them. */
  lemma ShownIs<T>(result: seq<OutputFrame<T>>, decoded: seq<DecodeResult<T>>)
    requires Shows(result, decoded)
    ensures Shown(result) == ToShow(decoded)
  {
  }

  class FrameSorter<T(==)> {
    const frames: Heap.BinaryHeap<T>

    ghost predicate Valid()
      reads this, frames
    {
      frames.Valid()
    }

    ghost function Waiting(): multiset<DecodeResult<T>>
      reads this, frames
    {
      frames.Contents()
    }

    constructor ()
      ensures Valid() && fresh(frames) && Waiting() == multiset{}
    {
      frames := new Heap.BinaryHeap<T>();
    }

    method Put(frame: DecodeResult<T>) returns (result: seq<OutputFrame<T>>, ghost popped: seq<DecodeResult<T>>)
      requires Valid()
      modifies frames
      ensures Valid()
      ensures PutStep(old(Waiting()), frame, popped, Waiting())
      ensures Shows(result, Emitted(frame, popped))
    {
      if frame.metadata.isIdr {
        result, popped := PopDownTo(0);
        result := result + [ToOutput(frame)];
      } else {
        assert |frames.data| == |Waiting()|;
        frames.Push(frame);
        result, popped := PopDownTo(frame.metadata.maxNumReorderFrames);
        assert |frames.data| == |Waiting()|;
      }
    }

    /** The loop of put and flush: pops until at most limit pictures wait. */
    method PopDownTo(limit: nat) returns (result: seq<OutputFrame<T>>, ghost popped: seq<DecodeResult<T>>)
      requires Valid()
      modifies frames
      ensures Valid() && |frames.data| == Min(old(|frames.data|), limit)
      ensures Drains(old(Waiting()), popped, Waiting())
      ensures Shows(result, popped)
    {
      result, popped := [], [];
      DrainNone(Waiting());
      while |frames.data| > limit
        invariant Valid() && Drains(old(Waiting()), popped, Waiting())
        invariant Min(old(|frames.data|), limit) <= |frames.data| <= old(|frames.data|)
        invariant Shows(result, popped)
        decreases |frames.data|
      {
        var next := frames.Pop();
        DrainOneMore(old(Waiting()), popped, next.value, Waiting());
        ShowsConcat(result, popped, [ToOutput(next.value)], [next.value]);
        result := result + [ToOutput(next.value)];
        popped := popped + [next.value];
      }
    }

    /** Puts the frames one by one and appends what each put emits. */
    method PutFrames(unsorted: seq<DecodeResult<T>>) returns (result: seq<OutputFrame<T>>, ghost run: Run<T>)
      requires Valid()
      modifies frames
      ensures Valid() && run.Waiting() == Waiting()
      ensures RunGives(run, old(Waiting()), unsorted, result)
    {
      result, run := [], Start(Waiting());
      var i := 0;
      while i < |unsorted|
        invariant 0 <= i <= |unsorted| && Valid() && run.Waiting() == Waiting()
        invariant RunGives(run, old(Waiting()), unsorted[..i], result)
      {
        TakeOneMore(unsorted, i);
        result, run := PutNext(unsorted[i], result, run, old(Waiting()), unsorted[..i]);
        i := i + 1;
      }
      assert unsorted[..|unsorted|] == unsorted;
    }

    /** One round of PutFrames. */
    method PutNext(frame: DecodeResult<T>, result: seq<OutputFrame<T>>, ghost run: Run<T>, ghost origin: multiset<DecodeResult<T>>,
                   ghost inputs: seq<DecodeResult<T>>)
      returns (result': seq<OutputFrame<T>>, ghost run': Run<T>)
      requires Valid() && run.Waiting() == Waiting() && RunGives(run, origin, inputs, result)
      modifies frames
      ensures Valid() && run'.Waiting() == Waiting() && RunGives(run', origin, inputs + [frame], result')
    {
      ghost var popped;
      result', popped := Put(frame);
      OneMorePut(run, frame, popped, Waiting(), result, result');
      result', run' := result + result', Run.Put(run, frame, popped, Waiting());
    }

    method Flush() returns (result: seq<OutputFrame<T>>, ghost popped: seq<DecodeResult<T>>)
      requires Valid()
      modifies frames
      ensures Valid() && Waiting() == multiset{}
      ensures Drains(old(Waiting()), popped, multiset{})
      ensures Shows(result, popped)
    {
      result, popped := PopDownTo(0);
    }

    /** A last batch of pictures, followed by a flush: everything decoded comes out, in order if the bounds hold. */
    method PutFramesAndFlush(unsorted: seq<DecodeResult<T>>) returns (result: seq<OutputFrame<T>>)
      requires Valid() && Waiting() == multiset{}
      modifies frames
      ensures Valid() && Waiting() == multiset{}
      ensures multiset(Shown(result)) == multiset(ToShow(unsorted))
      ensures WellFormedStream(unsorted) && EveryPieceWithinReorder(unsorted) ==> Shows(result, PresentationOrder(unsorted))
    {
      var ordered, run := PutFrames(unsorted);
      var rest, popped := Flush();
      result := ordered + rest;
      ShowsConcat(ordered, run.Outputs(), rest, popped);
      FlushedOutputs(run, popped);
      ShownIs(result, run.Outputs() + popped);
      SamePictures(run.Outputs() + popped, unsorted);
      if WellFormedStream(unsorted) {
        PresentsIffWithinReorder(run, popped);
      }
    }
  }
}
