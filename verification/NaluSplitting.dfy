/** Where an H.264 byte stream is cut into NAL units, for the stream as a whole. */
module NaluSplitting {
  import opened Common
  import opened ByteOrder

  /** A start code that is not the one the buffer itself begins with. */
  predicate IsStart(buf: seq<byte>, p: nat) {
    && 4 <= |buf| && IsCode(buf, p)
    && (2 <= p || (p == 1 && buf[0] != 0))
  }

  /** Where 0 0 1 stands. */
  predicate IsCode(buf: seq<byte>, p: nat) {
    p + 3 <= |buf| && buf[p] == 0 && buf[p + 1] == 0 && buf[p + 2] == 1
  }

  /** The first place from p on where 0 0 1 stands. */
  function FindCode(buf: seq<byte>, p: nat): (r: Option<nat>)
    ensures r.Some? ==> p <= r.value && r.value + 3 <= |buf|
    decreases |buf| - p
  {
    if p + 3 > |buf| then None
    else if IsCode(buf, p) then Some(p)
    else FindCode(buf, p + 1)
  }

  /** A search gives r: the first start code, or none where there is none. */
  ghost predicate FirstIs(buf: seq<byte>, r: Option<nat>) {
    && (r.Some? ==> IsStart(buf, r.value))
    && forall p: nat :: r.None? || p < r.value ==> !IsStart(buf, p)
  }

  lemma {:induction false} FindCodeIsFirst(buf: seq<byte>, p: nat)
    ensures var r := FindCode(buf, p);
            && (r.Some? ==> IsCode(buf, r.value))
            && forall q: nat :: p <= q && (r.None? || q < r.value) ==> !IsCode(buf, q)
    decreases |buf| - p
  {
    if p + 3 <= |buf| && !IsCode(buf, p) {
      FindCodeIsFirst(buf, p + 1);
    }
  }

  /** The first start code: the one behind a first byte that is not 0, or one from the third byte on. */
  function FirstStart(buf: seq<byte>): (r: Option<nat>)
    ensures r.Some? ==> 1 <= r.value && r.value + 3 <= |buf|
  {
    if |buf| < 4 then None
    else if buf[0] != 0 && IsCode(buf, 1) then Some(1)
    else FindCode(buf, 2)
  }

  /** Where the next NAL unit begins; a zero byte before the start code belongs to it. */
  function FindStartOfNextNalu(buf: seq<byte>): (r: Option<nat>)
    ensures r.Some? ==> 1 <= r.value < |buf|
  {
    var p := FirstStart(buf);
    if p == None then None
    else if buf[p.value - 1] == 0 && p.value >= 2 then Some(p.value - 1)
    else p
  }

  lemma FirstStartIsFirst(buf: seq<byte>)
    ensures FirstIs(buf, FirstStart(buf))
  {
    FindCodeIsFirst(buf, 2);
  }

  /** Being the first start code, or there being none, determines the outcome of the search. */
  lemma FirstIsFound(buf: seq<byte>, r: Option<nat>)
    requires FirstIs(buf, r)
    ensures FirstStart(buf) == r
  {
    FirstStartIsFirst(buf);
  }

  /** The units that are complete, and the bytes that are left. */
  function Split(buf: seq<byte>): (r: (seq<seq<byte>>, seq<byte>))
    decreases |buf|
  {
    var i := FindStartOfNextNalu(buf);
    if i == None then ([], buf)
    else Onto([buf[..i.value]], Split(buf[i.value..]))
  }

  /** Puts earlier units in front. */
  function Onto(units: seq<seq<byte>>, later: (seq<seq<byte>>, seq<byte>)): (seq<seq<byte>>, seq<byte>) {
    (units + later.0, later.1)
  }

  lemma OntoOnto(a: seq<seq<byte>>, b: seq<seq<byte>>, later: (seq<seq<byte>>, seq<byte>))
    ensures Onto(a, Onto(b, later)) == Onto(a + b, later)
    ensures Onto([], later) == later
  {
    assert a + (b + later.0) == a + b + later.0;
    assert [] + later.0 == later.0;
  }

  /** All units of a stream that has ended. */
  function Units(stream: seq<byte>): seq<seq<byte>> {
    var (units, rest) := Split(stream);
    if rest == [] then units else units + [rest]
  }

  lemma {:induction false} SplitLeavesNoStart(buf: seq<byte>)
    ensures FindStartOfNextNalu(Split(buf).1) == None
    decreases |buf|
  {
    var i := FindStartOfNextNalu(buf);
    if i.Some? {
      SplitLeavesNoStart(buf[i.value..]);
    }
  }

  // ---- What the units are ----

  function Concat(units: seq<seq<byte>>): seq<byte> {
    if units == [] then [] else units[0] + Concat(units[1..])
  }

  lemma ConcatCons(unit: seq<byte>, later: seq<seq<byte>>)
    ensures Concat([unit] + later) == unit + Concat(later)
  {
    assert ([unit] + later)[1..] == later;
  }

  predicate BeginsWithCode(unit: seq<byte>) {
    [0, 0, 1] <= unit || [0, 0, 0, 1] <= unit
  }

  /** No unit runs over a start code, and all but the first begin with one. */
  ghost predicate ProperUnits(units: seq<seq<byte>>) {
    && (forall k :: 0 <= k < |units| ==> units[k] != [] && forall p: nat :: !IsStart(units[k], p))
    && (forall k :: 1 <= k < |units| ==> BeginsWithCode(units[k]))
  }

  lemma CutAtCode(buf: seq<byte>)
    requires FindStartOfNextNalu(buf).Some?
    ensures var i := FindStartOfNextNalu(buf).value;
            && BeginsWithCode(buf[i..])
            && forall p: nat :: !IsStart(buf[..i], p)
  {
    var i, first := FindStartOfNextNalu(buf).value, FirstStart(buf).value;
    FirstStartIsFirst(buf);
    forall p: nat ensures !IsStart(buf[..i], p) {
      assert p < first ==> !IsStart(buf, p);
    }
    if i == first {
      assert buf[i..][..3] == [0, 0, 1];
    } else {
      assert buf[i..][..4] == [0, 0, 0, 1];
    }
  }

  lemma UnfoldUnits(stream: seq<byte>)
    ensures var i := FindStartOfNextNalu(stream);
            Units(stream) == if i.Some? then [stream[..i.value]] + Units(stream[i.value..])
                             else if stream == [] then [] else [stream]
  {
    var i := FindStartOfNextNalu(stream);
    if i.Some? {
      var later := Split(stream[i.value..]);
      if later.1 != [] {
        assert [stream[..i.value]] + later.0 + [later.1] == [stream[..i.value]] + (later.0 + [later.1]);
      }
    }
  }

  /** Nothing is lost or moved. */
  lemma {:induction false} UnitsMakeUpStream(stream: seq<byte>)
    ensures Concat(Units(stream)) == stream
    decreases |stream|
  {
    var i := FindStartOfNextNalu(stream);
    UnfoldUnits(stream);
    if i.Some? {
      var first, later := stream[..i.value], stream[i.value..];
      UnitsMakeUpStream(later);
      ConcatCons(first, Units(later));
      assert first + later == stream;
    } else if stream != [] {
      OneUnit(stream);
    }
  }

  lemma OneUnit(stream: seq<byte>)
    ensures Concat([stream]) == stream
  {
    assert [stream][1..] == [] && stream + [] == stream;
  }

  /** No unit is empty or runs over a start code, and all but the first begin with one. */
  lemma {:induction false} UnitsAreProper(stream: seq<byte>)
    ensures ProperUnits(Units(stream))
    decreases |stream|
  {
    var i := FindStartOfNextNalu(stream);
    UnfoldUnits(stream);
    FirstStartIsFirst(stream);
    if i.Some? {
      CutAtCode(stream);
      var later := stream[i.value..];
      UnitsAreProper(later);
      FirstBeginsWithCode(later);
      ProperCons(stream[..i.value], Units(later));
    }
  }

  lemma ProperCons(unit: seq<byte>, later: seq<seq<byte>>)
    requires unit != [] && (forall p: nat :: !IsStart(unit, p)) && ProperUnits(later)
    requires later != [] ==> BeginsWithCode(later[0])
    ensures ProperUnits([unit] + later)
  {
    var units := [unit] + later;
    forall k | 0 <= k < |units|
      ensures units[k] != [] && (forall p: nat :: !IsStart(units[k], p)) && (k >= 1 ==> BeginsWithCode(units[k]))
    {
      if k > 0 {
        assert units[k] == later[k - 1];
      }
    }
  }

  /** The first unit of a stream that begins with a start code keeps the whole of that code. */
  lemma FirstBeginsWithCode(stream: seq<byte>)
    requires BeginsWithCode(stream)
    ensures Units(stream) != [] && BeginsWithCode(Units(stream)[0])
  {
    UnfoldUnits(stream);
    var i := FindStartOfNextNalu(stream);
    if i.Some? {
      var first := FirstStart(stream).value;
      FirstStartIsFirst(stream);
      if [0, 0, 1] <= stream {
        assert stream[..3] == [0, 0, 1];
      } else {
        assert stream[..4] == [0, 0, 0, 1];
      }
      assert stream[2] != 0 ==> i.value >= 3;
    }
  }

  // ---- Where the units begin ----

  /** Either form of the start code: 0 0 0 1, or 0 0 1 behind a byte that is not 0. */
  predicate CodeAt(stream: seq<byte>, b: nat) {
    || (b + 4 <= |stream| && stream[b] == 0 && stream[b + 1] == 0 && stream[b + 2] == 0 && stream[b + 3] == 1)
    || (0 < b && b + 3 <= |stream| && stream[b - 1] != 0 && stream[b] == 0 && stream[b + 1] == 0 && stream[b + 2] == 1)
  }

  /** A unit other than the first begins at byte b. */
  predicate UnitBeginsAt(units: seq<seq<byte>>, b: nat) {
    |units| >= 2 && (b == |units[0]| || (b > |units[0]| && UnitBeginsAt(units[1..], b - |units[0]|)))
  }

  lemma FirstCut(stream: seq<byte>, b: nat)
    requires b > 0
    ensures var i := FindStartOfNextNalu(stream);
            && (i.Some? ==> CodeAt(stream, i.value))
            && (i.None? || b < i.value ==> !CodeAt(stream, b))
  {
    var p := FirstStart(stream);
    FirstStartIsFirst(stream);
    if CodeAt(stream, b) {
      assert IsStart(stream, b) || IsStart(stream, b + 1);
    }
  }

  lemma BeginsLater(first: seq<byte>, later: seq<seq<byte>>, b: nat)
    requires later != []
    ensures UnitBeginsAt([first] + later, b) <==> b == |first| || (b > |first| && UnitBeginsAt(later, b - |first|))
  {
    assert ([first] + later)[1..] == later;
  }

  lemma CodeLater(stream: seq<byte>, i: nat, b: nat)
    requires i < b && i <= |stream|
    ensures CodeAt(stream, b) <==> CodeAt(stream[i..], b - i)
  {
  }

  lemma SomeUnits(stream: seq<byte>)
    requires stream != []
    ensures Units(stream) != []
  {
    UnfoldUnits(stream);
  }

  /** The units begin exactly where the stream has a start code, in its longer form where there is one. */
  lemma {:induction false} UnitsBeginAtCodes(stream: seq<byte>, b: nat)
    requires b > 0
    ensures UnitBeginsAt(Units(stream), b) <==> CodeAt(stream, b)
    decreases |stream|
  {
    var i := FindStartOfNextNalu(stream);
    UnfoldUnits(stream);
    FirstCut(stream, b);
    if i.Some? {
      var later := stream[i.value..];
      SomeUnits(later);
      BeginsLater(stream[..i.value], Units(later), b);
      if b > i.value {
        CodeLater(stream, i.value, b);
        UnitsBeginAtCodes(later, b - i.value);
      }
    }
  }
}
