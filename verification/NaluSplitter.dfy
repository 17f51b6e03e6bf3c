/** The NAL unit splitter: an object that is fed a byte stream piece by piece. */
module NaluSplitter {
  import opened Common
  import opened ByteOrder
  import opened NaluSplitting

  type Pts = Option<nat>

  /** The units cut off in one call: the first has its own time stamp, the others that of the call. */
  function Stamped(units: seq<seq<byte>>, first: Pts, others: Pts): (r: seq<(seq<byte>, Pts)>)
    ensures |r| == |units|
    ensures forall k :: 0 <= k < |units| ==> r[k] == (units[k], if k == 0 then first else others)
  {
    seq(|units|, k requires 0 <= k < |units| => (units[k], if k == 0 then first else others))
  }

  function UnitsOf(stamped: seq<(seq<byte>, Pts)>): (r: seq<seq<byte>>)
    ensures |r| == |stamped|
  {
    seq(|stamped|, k requires 0 <= k < |stamped| => stamped[k].0)
  }

  lemma StampOneMore(units: seq<seq<byte>>, unit: seq<byte>, first: Pts, others: Pts)
    ensures Stamped(units + [unit], first, others)
         == Stamped(units, first, others) + [(unit, if |units| == 0 then first else others)]
  {
  }

  lemma UnitsOfConcat(a: seq<(seq<byte>, Pts)>, b: seq<(seq<byte>, Pts)>)
    ensures UnitsOf(a + b) == UnitsOf(a) + UnitsOf(b)
  {
  }

  lemma UnitsOfStamped(units: seq<seq<byte>>, first: Pts, others: Pts)
    ensures UnitsOf(Stamped(units, first, others)) == units
  {
  }

  /** No start code lies before the place from which the search goes on. */
  ghost predicate Searched(buffer: seq<byte>, end: nat) {
    && end <= |buffer|
    && (end > 0 ==> end + 4 <= |buffer| && forall p: nat :: p + 3 <= end + 4 ==> !IsStart(buffer, p))
  }

  /** Searching on from a place already searched finds what a search of the whole buffer finds. */
  lemma SearchOn(buffer: seq<byte>, end: nat)
    requires Searched(buffer, end)
    ensures var found := FindStartOfNextNalu(buffer[end..]);
            FindStartOfNextNalu(buffer) == if found == None then None else Some(end + found.value)
  {
    var tail := buffer[end..];
    if end == 0 {
      assert tail == buffer;
    } else {
      FirstStartIsFirst(tail);
      var p := FirstStart(tail);
      forall q: nat ensures IsStart(tail, q) <==> IsStart(buffer, end + q) {
        if q <= 1 {
          assert !IsStart(buffer, end + q);
        }
      }
      forall q: nat | p.None? || q < end + p.value ensures !IsStart(buffer, q) {
        if q >= end {
          assert !IsStart(tail, q - end);
        }
      }
      FirstIsFound(buffer, if p == None then None else Some(end + p.value));
    }
  }

  /** More data behind a buffer does not move its first start code. */
  lemma FirstStartStable(buffer: seq<byte>, more: seq<byte>)
    ensures FindStartOfNextNalu(buffer).Some? ==> FindStartOfNextNalu(buffer + more) == FindStartOfNextNalu(buffer)
  {
    var p := FirstStart(buffer);
    FirstStartIsFirst(buffer);
    if p.Some? {
      forall q: nat | q < p.value ensures !IsStart(buffer + more, q) {
        assert !IsStart(buffer, q);
      }
      FirstIsFound(buffer + more, p);
    }
  }

  /** Splitting what is left together with later data goes on where the first split stopped. */
  lemma {:induction false} SplitMore(buffer: seq<byte>, more: seq<byte>)
    ensures Split(buffer + more) == Onto(Split(buffer).0, Split(Split(buffer).1 + more))
    decreases |buffer|
  {
    var i := FindStartOfNextNalu(buffer);
    if i.Some? {
      var first, later := buffer[..i.value], buffer[i.value..];
      FirstStartStable(buffer, more);
      SplitMore(later, more);
      assert (buffer + more)[..i.value] == first && (buffer + more)[i.value..] == later + more;
      OntoOnto([first], Split(later).0, Split(Split(later).1 + more));
    } else {
      OntoOnto([], [], Split(buffer + more));
    }
  }

  /** Everything the splitter gives for a stream fed in pieces. */
  function FedInPieces(rest: seq<byte>, pieces: seq<seq<byte>>): (seq<seq<byte>>, seq<byte>)
    decreases |pieces|
  {
    if pieces == [] then ([], rest)
    else
      var first := Split(rest + pieces[0]);
      Onto(first.0, FedInPieces(first.1, pieces[1..]))
  }

  /** How the stream is cut into pieces does not matter: with a final flush the units are those of the whole stream. */
  lemma {:induction false} PiecesDoNotMatter(rest: seq<byte>, pieces: seq<seq<byte>>)
    requires FindStartOfNextNalu(rest) == None
    ensures FedInPieces(rest, pieces) == Split(rest + Concat(pieces))
    decreases |pieces|
  {
    if pieces == [] {
      assert rest + Concat(pieces) == rest;
    } else {
      var first := Split(rest + pieces[0]);
      SplitLeavesNoStart(rest + pieces[0]);
      PiecesDoNotMatter(first.1, pieces[1..]);
      SplitMore(rest + pieces[0], Concat(pieces[1..]));
      assert rest + pieces[0] + Concat(pieces[1..]) == rest + Concat(pieces);
    }
  }

  class NALUSplitter {
    var buffer: seq<byte>
    var pts: Pts
    var previousSearchEnd: nat

    /** Between calls the buffer holds no start code but its own, and the search goes on at a place already searched. */
    ghost predicate Valid()
      reads this
    {
      FindStartOfNextNalu(buffer) == None && Searched(buffer, previousSearchEnd)
    }

    constructor ()
      ensures Valid() && buffer == [] && pts == None
    {
      buffer, pts, previousSearchEnd := [], None, 0;
    }

    method Push(bytestream: seq<byte>, pts: Pts) returns (result: seq<(seq<byte>, Pts)>)
      requires Valid()
      modifies this
      ensures Valid() && this.pts == pts
      ensures var (units, rest) := Split(old(buffer) + bytestream);
              && result == Stamped(units, if old(buffer) == [] then pts else old(this.pts), pts)
              && buffer == rest
    {
      var firstPts := if |buffer| == 0 then pts else this.pts;
      StillSearched(buffer, bytestream, previousSearchEnd);
      buffer := buffer + bytestream;
      result := CutUnits(firstPts, pts);
      previousSearchEnd := if |buffer| < 4 then 0 else |buffer| - 4;
      this.pts := pts;
      NothingLeft(buffer);
    }

    /** The loop of push and flush: cuts off units as long as the search finds a start code. */
    method CutUnits(first: Pts, others: Pts) returns (result: seq<(seq<byte>, Pts)>)
      requires Searched(buffer, previousSearchEnd)
      modifies `buffer, `previousSearchEnd
      ensures result == Stamped(Split(old(buffer)).0, first, others)
      ensures buffer == Split(old(buffer)).1 && FindStartOfNextNalu(buffer) == None
    {
      result := [];
      ghost var units: seq<seq<byte>> := [];
      OntoOnto([], [], Split(buffer));
      while true
        invariant Searched(buffer, previousSearchEnd)
        invariant result == Stamped(units, first, others)
        invariant Split(old(buffer)) == Onto(units, Split(buffer))
        decreases |buffer|
      {
        SearchOn(buffer, previousSearchEnd);
        var i := FindStartOfNextNalu(buffer[previousSearchEnd..]);
        if i == None {
          assert units + [] == units;
          return;
        }
        var nalu := buffer[..previousSearchEnd + i.value];
        StampOneMore(units, nalu, first, others);
        OntoOnto(units, [nalu], Split(buffer[previousSearchEnd + i.value..]));
        buffer := buffer[previousSearchEnd + i.value..];
        result := result + [(nalu, if |result| == 0 then first else others)];
        units := units + [nalu];
        previousSearchEnd := 0;
      }
    }

    /** Ends the stream: what is left is a unit too. */
    method Flush() returns (result: seq<(seq<byte>, Pts)>)
      requires Valid()
      modifies this
      ensures Valid() && buffer == []
      ensures result == if old(buffer) == [] then [] else [(old(buffer), old(pts))]
    {
      if |buffer| == 0 {
        return [];
      }
      result := CutUnits(pts, pts);
      result := result + [(buffer, pts)];
      buffer, previousSearchEnd := [], 0;
    }

    static lemma StillSearched(buffer: seq<byte>, more: seq<byte>, end: nat)
      requires Searched(buffer, end)
      ensures Searched(buffer + more, end)
    {
      if end > 0 {
        forall p: nat | p + 3 <= end + 4 ensures !IsStart(buffer + more, p) {
          assert !IsStart(buffer, p);
        }
      }
    }

    static lemma NothingLeft(buffer: seq<byte>)
      requires FindStartOfNextNalu(buffer) == None
      ensures Searched(buffer, if |buffer| < 4 then 0 else |buffer| - 4)
    {
      FirstStartIsFirst(buffer);
    }
  }

  // ---- Time stamps ----

  /** All units with their time stamps, given the bytes left over so far and the stamp of the push before. */
  function FedStamped(rest: seq<byte>, last: Pts, pieces: seq<(seq<byte>, Pts)>): seq<(seq<byte>, Pts)>
    decreases |pieces|
  {
    if pieces == [] then if rest == [] then [] else [(rest, last)]
    else
      var (units, left) := Split(rest + pieces[0].0);
      Stamped(units, if rest == [] then pieces[0].1 else last, pieces[0].1) + FedStamped(left, pieces[0].1, pieces[1..])
  }

  /** Where a unit comes from: the push that brought its first byte, the push that completed it, and whether it is the first one completed by it. */
  datatype Trace = Trace(began: nat, completed: nat, leads: bool) {
    /** The push whose time stamp the unit carries. */
    function StampedBy(): int {
      if leads && began < completed then completed - 1 else completed
    }
  }

  /** The traces of the units cut off by push n, and the origins of the bytes that are left. */
  function TracesOfPush(buffer: seq<byte>, origins: seq<nat>, n: nat, leads: bool): (r: (seq<Trace>, seq<nat>))
    requires |origins| == |buffer|
    ensures |r.0| == |Split(buffer).0| && |r.1| == |Split(buffer).1|
    decreases |buffer|
  {
    var i := FindStartOfNextNalu(buffer);
    if i == None then ([], origins)
    else
      var later := TracesOfPush(buffer[i.value..], origins[i.value..], n, false);
      ([Trace(origins[0], n, leads)] + later.0, later.1)
  }

  /** The traces of all units; origins says in which push each byte left over came. The flush completes the last unit. */
  function Traces(rest: seq<byte>, origins: seq<nat>, pieces: seq<(seq<byte>, Pts)>, n: nat): seq<Trace>
    requires |origins| == |rest|
    decreases |pieces|
  {
    if pieces == [] then if rest == [] then [] else [Trace(origins[0], n, true)]
    else
      var (traces, left) := TracesOfPush(rest + pieces[0].0, origins + seq(|pieces[0].0|, _ => n), n, true);
      traces + Traces(Split(rest + pieces[0].0).1, left, pieces[1..], n + 1)
  }

  /** The units carry the stamps of the pushes their traces name. */
  ghost predicate CarryStamps(result: seq<(seq<byte>, Pts)>, traces: seq<Trace>, stamps: seq<Pts>) {
    && |result| == |traces|
    && forall k :: 0 <= k < |result| ==> CarriesStamp(result[k].1, traces[k], stamps)
  }

  /** Its own push is the one that brought its first byte if and only if the unit needed no other, or only the one after it and came first there. */
  predicate CarriesStamp(stamp: Pts, t: Trace, stamps: seq<Pts>) {
    && t.began <= t.completed && 0 <= t.StampedBy() < |stamps| && stamp == stamps[t.StampedBy()]
    && (t.StampedBy() == t.began <==> t.began == t.completed || (t.leads && t.began + 1 == t.completed))
  }

  ghost predicate Before(origins: seq<nat>, n: nat) {
    forall p :: 0 <= p < |origins| ==> origins[p] < n
  }

  lemma {:induction false} PushCarriesStamps(buffer: seq<byte>, origins: seq<nat>, n: nat, leads: bool, stamps: seq<Pts>, first: Pts)
    requires |origins| == |buffer| && n < |stamps| && forall p :: 0 <= p < |origins| ==> origins[p] <= n
    requires buffer != [] ==> first == stamps[if leads && origins[0] < n then n - 1 else n]
    ensures CarryStamps(Stamped(Split(buffer).0, first, stamps[n]), TracesOfPush(buffer, origins, n, leads).0, stamps)
    ensures Before(TracesOfPush(buffer, origins, n, leads).1, n + 1)
    decreases |buffer|
  {
    var i := FindStartOfNextNalu(buffer);
    if i.Some? {
      var later := buffer[i.value..];
      PushCarriesStamps(later, origins[i.value..], n, false, stamps, stamps[n]);
      StampedCons(buffer[..i.value], Split(later).0, first, stamps[n]);
      CarryCons((buffer[..i.value], first), Trace(origins[0], n, leads), Stamped(Split(later).0, stamps[n], stamps[n]),
                TracesOfPush(later, origins[i.value..], n, false).0, stamps);
    }
  }

  lemma StampedCons(unit: seq<byte>, later: seq<seq<byte>>, first: Pts, others: Pts)
    ensures Stamped([unit] + later, first, others) == [(unit, first)] + Stamped(later, others, others)
  {
  }

  lemma CarryCons(unit: (seq<byte>, Pts), t: Trace, later: seq<(seq<byte>, Pts)>, traces: seq<Trace>, stamps: seq<Pts>)
    requires CarriesStamp(unit.1, t, stamps) && CarryStamps(later, traces, stamps)
    ensures CarryStamps([unit] + later, [t] + traces, stamps)
  {
  }

  lemma CarryConcat(a: seq<(seq<byte>, Pts)>, ta: seq<Trace>, b: seq<(seq<byte>, Pts)>, tb: seq<Trace>, stamps: seq<Pts>)
    requires CarryStamps(a, ta, stamps) && CarryStamps(b, tb, stamps)
    ensures CarryStamps(a + b, ta + tb, stamps)
  {
  }

  /**
   Every unit carries the stamp of the push that completed it; only the first one
   completed by a push, or by the flush, carries that of the push before if it began
   earlier. So its stamp is that of its first byte exactly when CarriesStamp says so.
   */
  lemma {:induction false} UnitsCarryStamps(rest: seq<byte>, origins: seq<nat>, last: Pts, pieces: seq<(seq<byte>, Pts)>,
                                            n: nat, stamps: seq<Pts>)
    requires |origins| == |rest| && Before(origins, n) && |stamps| == n + |pieces|
    requires forall j :: 0 <= j < |pieces| ==> stamps[n + j] == pieces[j].1
    requires n > 0 ==> last == stamps[n - 1]
    ensures CarryStamps(FedStamped(rest, last, pieces), Traces(rest, origins, pieces, n), stamps)
    decreases |pieces|
  {
    if pieces != [] {
      var buffer, all := rest + pieces[0].0, origins + seq(|pieces[0].0|, _ => n);
      assert stamps[n + 0] == pieces[0].1;
      var first := if rest == [] then pieces[0].1 else last;
      PushCarriesStamps(buffer, all, n, true, stamps, first);
      var left := TracesOfPush(buffer, all, n, true).1;
      UnitsCarryStamps(Split(buffer).1, left, pieces[0].1, pieces[1..], n + 1, stamps);
      CarryConcat(Stamped(Split(buffer).0, first, pieces[0].1), TracesOfPush(buffer, all, n, true).0,
                  FedStamped(Split(buffer).1, pieces[0].1, pieces[1..]),
                  Traces(Split(buffer).1, left, pieces[1..], n + 1), stamps);
    }
  }

  /** A push that leaves fewer than four bytes completes no unit. */
  lemma PushCompletesNothing(rest: seq<byte>, origins: seq<nat>, last: Pts, pieces: seq<(seq<byte>, Pts)>, n: nat,
                             buffer: seq<byte>, all: seq<nat>)
    requires pieces != [] && |origins| == |rest| && buffer == rest + pieces[0].0 && |buffer| < 4
    requires all == origins + seq(|pieces[0].0|, _ => n)
    ensures FedStamped(rest, last, pieces) == FedStamped(buffer, pieces[0].1, pieces[1..])
    ensures Traces(rest, origins, pieces, n) == Traces(buffer, all, pieces[1..], n + 1)
  {
    var first := if rest == [] then pieces[0].1 else last;
    assert Stamped([], first, pieces[0].1) == [];
    assert [] + FedStamped(buffer, pieces[0].1, pieces[1..]) == FedStamped(buffer, pieces[0].1, pieces[1..]);
    assert [] + Traces(buffer, all, pieces[1..], n + 1) == Traces(buffer, all, pieces[1..], n + 1);
  }

  /** A unit that takes three pushes loses the stamp it began with. */
  lemma LongUnitIsStampedLate(a: Pts, b: Pts, c: Pts)
    ensures FedStamped([], None, [([5], a), ([5], b), ([5], c)]) == [([5, 5, 5], c)]
    ensures Traces([], [], [([5], a), ([5], b), ([5], c)], 0) == [Trace(0, 3, true)]
  {
    PushCompletesNothing([], [], None, [([5], a), ([5], b), ([5], c)], 0, [5], [0]);
    assert [([5], a), ([5], b), ([5], c)][1..] == [([5], b), ([5], c)];
    PushCompletesNothing([5], [0], a, [([5], b), ([5], c)], 1, [5, 5], [0, 1]);
    assert [([5], b), ([5], c)][1..] == [([5], c)];
    PushCompletesNothing([5, 5], [0, 1], b, [([5], c)], 2, [5, 5, 5], [0, 1, 2]);
    assert [([5], c)][1..] == [];
  }

  function StampsOf(pieces: seq<(seq<byte>, Pts)>): (r: seq<Pts>)
    ensures |r| == |pieces|
  {
    seq(|pieces|, j requires 0 <= j < |pieces| => pieces[j].1)
  }

  /** Feeds a whole stream in pieces and flushes: the units are those of the stream, for any pieces, and each carries the stamp its trace names. */
  method SplitStream(pieces: seq<(seq<byte>, Pts)>) returns (result: seq<(seq<byte>, Pts)>)
    ensures UnitsOf(result) == Units(Concat(UnitsOf(pieces)))
    ensures CarryStamps(result, Traces([], [], pieces, 0), StampsOf(pieces))
  {
    var splitter := new NALUSplitter();
    result := [];
    assert pieces[0..] == pieces;
    for i := 0 to |pieces|
      invariant splitter.Valid() && fresh(splitter)
      invariant FedStamped([], None, pieces) == result + FedStamped(splitter.buffer, splitter.pts, pieces[i..])
    {
      assert pieces[i..][0] == pieces[i] && pieces[i..][1..] == pieces[i + 1..];
      ghost var before := result;
      var some := splitter.Push(pieces[i].0, pieces[i].1);
      result := result + some;
      assert before + (some + FedStamped(splitter.buffer, splitter.pts, pieces[i + 1..]))
          == result + FedStamped(splitter.buffer, splitter.pts, pieces[i + 1..]);
    }
    var last := splitter.Flush();
    result := result + last;
    UnitsCarryStamps([], [], None, pieces, 0, StampsOf(pieces));
    StampedUnits([], None, pieces);
    PiecesDoNotMatter([], UnitsOf(pieces));
    assert [] + Concat(UnitsOf(pieces)) == Concat(UnitsOf(pieces));
  }

  /** Without their stamps the units are those of the splitter fed in pieces, and what it has left. */
  lemma {:induction false} StampedUnits(rest: seq<byte>, last: Pts, pieces: seq<(seq<byte>, Pts)>)
    ensures var (units, left) := FedInPieces(rest, UnitsOf(pieces));
            UnitsOf(FedStamped(rest, last, pieces)) == if left == [] then units else units + [left]
    decreases |pieces|
  {
    if pieces != [] {
      var (units, left) := Split(rest + pieces[0].0);
      var first := if rest == [] then pieces[0].1 else last;
      var later := FedInPieces(left, UnitsOf(pieces[1..]));
      assert UnitsOf(pieces)[1..] == UnitsOf(pieces[1..]);
      StampedUnits(left, pieces[0].1, pieces[1..]);
      UnitsOfStamped(units, first, pieces[0].1);
      UnitsOfConcat(Stamped(units, first, pieces[0].1), FedStamped(left, pieces[0].1, pieces[1..]));
      assert units + (later.0 + [later.1]) == units + later.0 + [later.1];
    }
  }
}
