/**
 Dumps of RTP packets, each prefixed with its length in two bytes: splitting a dump
 at a presentation time and reading its packets back. What a packet is, and its
 presentation time in microseconds, is given from outside.
 */
module RtpDump {
  import opened Common
  import opened ByteOrder

  /** A panic is an index, slice or subtraction out of range, with overflow checks on. */
  datatype Outcome<T> = Done(value: T) | Failed | Panics

  /** How packets are decoded: unmarshal may fail, and the time is none for an unsupported payload type. */
  datatype Codec<!P> = Codec(unmarshal: seq<byte> -> Option<P>, micros: P -> Option<nat>)

  /** What stands at the front of a dump. */
  datatype Front = Empty | StrayByte | Truncated | Frame(payload: seq<byte>, rest: seq<byte>)

  function FrontOf(data: seq<byte>): (f: Front)
    ensures f.Frame? ==> |f.rest| < |data|
  {
    if data == [] then Empty
    else if |data| < 2 then StrayByte
    else if |data| < 2 + ReadBe16(data) then Truncated
    else Frame(data[2..2 + ReadBe16(data)], data[2 + ReadBe16(data)..])
  }

  // ---- Reading packets ----

  function Cons<P>(p: P, later: Outcome<seq<P>>): Outcome<seq<P>> {
    if later.Done? then Done([p] + later.value) else later
  }

  /** The packets of a dump; a truncated last one is left out. */
  function Packets<P>(codec: Codec<P>, data: seq<byte>): Outcome<seq<P>>
    decreases |data|
  {
    match FrontOf(data)
    case Empty => Done([])
    case StrayByte => Panics
    case Truncated => Done([])
    case Frame(payload, rest) =>
      var p := codec.unmarshal(payload);
      if p == None then Failed else Cons(p.value, Packets(codec, rest))
  }

  lemma PacketsOfFrame<P>(codec: Codec<P>, data: seq<byte>, payload: seq<byte>, rest: seq<byte>)
    requires FrontOf(data) == Frame(payload, rest)
    ensures var p := codec.unmarshal(payload);
            Packets(codec, data) == if p == None then Failed else Cons(p.value, Packets(codec, rest))
  {
  }

  method UnmarshalPackets<P>(codec: Codec<P>, data: seq<byte>) returns (r: Outcome<seq<P>>)
    ensures r == Packets(codec, data)
  {
    var packets, read := [], 0;
    assert data[0..] == data;
    AppendNothing(Packets(codec, data));
    while read < |data|
      invariant 0 <= read <= |data|
      invariant Packets(codec, data) == Append(Done(packets), Packets(codec, data[read..]))
    {
      if read + 1 >= |data| {
        return Panics;
      }
      var size := ReadBe16(data[read..]);
      PacketsStep(codec, data, read, size);
      read := read + 2;
      if |data| < read + size {
        assert packets + [] == packets;
        return Done(packets);
      }
      var packet := codec.unmarshal(data[read..read + size]);
      if packet == None {
        return Failed;
      }
      AppendCons(packets, packet.value, Packets(codec, data[read + size..]));
      read := read + size;
      packets := packets + [packet.value];
    }
    assert packets + [] == packets;
    return Done(packets);
  }

  /** One round of the loop, seen from offset read. */
  lemma PacketsStep<P>(codec: Codec<P>, data: seq<byte>, read: nat, size: nat)
    requires read + 1 < |data| && size == ReadBe16(data[read..])
    ensures var packets, n := Packets(codec, data[read..]), read + 2 + size;
            if |data| < n then packets == Done([])
            else
              var p := codec.unmarshal(data[read + 2..n]);
              packets == if p == None then Failed else Cons(p.value, Packets(codec, data[n..]))
  {
    if read + 2 + size <= |data| {
      TakeFrame(data, read, size);
    }
  }

  /** Outcomes one after the other: the first that is not Done decides. */
  function Append<P>(a: Outcome<seq<P>>, b: Outcome<seq<P>>): Outcome<seq<P>> {
    if !a.Done? then a else if !b.Done? then b else Done(a.value + b.value)
  }

  lemma AppendNothing<P>(r: Outcome<seq<P>>)
    ensures Append(Done([]), r) == r
  {
    if r.Done? {
      assert [] + r.value == r.value;
    }
  }

  lemma AppendCons<P>(s: seq<P>, p: P, later: Outcome<seq<P>>)
    ensures Append(Done(s), Cons(p, later)) == Append(Done(s + [p]), later)
  {
    if later.Done? {
      assert s + ([p] + later.value) == s + [p] + later.value;
    }
  }

  // ---- Splitting ----

  /** Whether a dump that starts at start is cut behind a packet of this time. */
  predicate IsLate(micros: nat, start: nat, splitAt: nat)
    requires start <= micros
  {
    micros - start >= splitAt
  }

  /** The time of a packet, none if it cannot be decoded or is not supported. */
  function TimeOf<P>(codec: Codec<P>, payload: seq<byte>): Option<nat> {
    var p := codec.unmarshal(payload);
    if p == None then None else codec.micros(p.value)
  }

  /** How many bytes go to the first part of a dump that starts at first. */
  function CutFrom<P>(codec: Codec<P>, data: seq<byte>, first: nat, splitAt: nat): (r: Outcome<nat>)
    ensures r.Done? ==> r.value <= |data|
    decreases |data|
  {
    match FrontOf(data)
    case Empty => Done(0)
    case StrayByte => Panics
    case Truncated => Panics
    case Frame(payload, rest) =>
      CutBehind(TimeOf(codec, payload), |data| - |rest|, first, splitAt, CutFrom(codec, rest, first, splitAt))
  }

  /** What a packet of n bytes at this time means for the cut; later is where the dump behind it would be cut. */
  function CutBehind(time: Option<nat>, n: nat, first: nat, splitAt: nat, later: Outcome<nat>): Outcome<nat> {
    if time == None then Failed
    else if time.value < first then Panics
    else if IsLate(time.value, first, splitAt) then Done(n)
    else Shift(n, later)
  }

  /** The dump starts at the time of its first packet, if no start is known. */
  function StartOf<P>(codec: Codec<P>, data: seq<byte>, start: Option<nat>): nat {
    if start.Some? then start.value
    else
      var front := FrontOf(data);
      var t := if front.Frame? then TimeOf(codec, front.payload) else None;
      if t.Some? then t.value else 0
  }

  function CutAt<P>(codec: Codec<P>, data: seq<byte>, start: Option<nat>, splitAt: nat): (r: Outcome<nat>)
    ensures r.Done? ==> r.value <= |data|
  {
    CutFrom(codec, data, StartOf(codec, data, start), splitAt)
  }

  function Shift(n: nat, r: Outcome<nat>): Outcome<nat> {
    if r.Done? then Done(n + r.value) else r
  }

  function PartsAt(dump: seq<byte>, cut: Outcome<nat>): Outcome<(seq<byte>, seq<byte>)>
    requires cut.Done? ==> cut.value <= |dump|
  {
    match cut
    case Done(n) => Done((dump[..n], dump[n..]))
    case Failed => Failed
    case Panics => Panics
  }

  method SplitRtpPacketDump<P>(codec: Codec<P>, dump: seq<byte>, splitAt: nat) returns (r: Outcome<(seq<byte>, seq<byte>)>)
    ensures r == PartsAt(dump, CutAt(codec, dump, None, splitAt))
    ensures var cut := CutAt(codec, dump, None, splitAt);
            && (r.Done? <==> cut.Done?) && (r.Failed? <==> cut.Failed?)
            && (r.Done? ==> r.value.0 + r.value.1 == dump && |r.value.0| == cut.value)
  {
    var cut := FindCut(codec, dump, splitAt);
    match cut
    case Done(n) => return Done((dump[..n], dump[n..]));
    case Failed => return Failed;
    case Panics => return Panics;
  }

  /** The loop of the split: goes from packet to packet up to the first late one. */
  method FindCut<P>(codec: Codec<P>, dump: seq<byte>, splitAt: nat) returns (r: Outcome<nat>)
    ensures r == CutAt(codec, dump, None, splitAt)
  {
    var read, start: Option<nat> := 0, None;
    ghost var cut := CutAt(codec, dump, None, splitAt);
    assert dump[0..] == dump;
    while read < |dump|
      invariant 0 <= read <= |dump|
      invariant cut == Shift(read, CutAt(codec, dump[read..], start, splitAt))
    {
      if read + 1 >= |dump| {
        return Panics;
      }
      var len := ReadBe16(dump[read..]);
      CutStep(codec, dump, read, len, start, splitAt);
      read := read + 2;
      if |dump| < read + len {
        return Panics;
      }
      var packet := codec.unmarshal(dump[read..read + len]);
      if packet == None {
        return Failed;
      }
      read := read + len;
      var micros := codec.micros(packet.value);
      if micros == None {
        return Failed;
      }
      if start == None {
        start := micros;
      }
      if micros.value < start.value {
        return Panics;
      }
      if micros.value - start.value >= splitAt {
        return Done(read);
      }
    }
    return Done(read);
  }

  /** What a packet that ends at offset n means for the cut. */
  function CutOrGoOn<P>(codec: Codec<P>, dump: seq<byte>, payload: seq<byte>, n: nat, start: Option<nat>, splitAt: nat): Outcome<nat>
    requires n <= |dump|
  {
    var t := TimeOf(codec, payload);
    var first := if start.Some? then start.value else if t.Some? then t.value else 0;
    CutBehind(t, n, first, splitAt, CutFrom(codec, dump[n..], first, splitAt))
  }

  /** One round of the loop, seen from offset read. */
  lemma CutStep<P>(codec: Codec<P>, dump: seq<byte>, read: nat, len: nat, start: Option<nat>, splitAt: nat)
    requires read + 1 < |dump| && len == ReadBe16(dump[read..])
    ensures var n := read + 2 + len;
            Shift(read, CutAt(codec, dump[read..], start, splitAt))
            == if |dump| < n then Panics else CutOrGoOn(codec, dump, dump[read + 2..n], n, start, splitAt)
  {
    if read + 2 + len <= |dump| {
      TakeFrame(dump, read, len);
    }
  }

  lemma TakeFrame(dump: seq<byte>, read: nat, len: nat)
    requires read + 1 < |dump| && len == ReadBe16(dump[read..]) && read + 2 + len <= |dump|
    ensures FrontOf(dump[read..]) == Frame(dump[read + 2..read + 2 + len], dump[read + 2 + len..])
  {
    var d := dump[read..];
    assert d[2..2 + len] == dump[read + 2..read + 2 + len] && d[2 + len..] == dump[read + 2 + len..];
  }

  /** Splitting any dump keeps its packets: those of the parts, in order, are those of the whole. */
  lemma SplitKeepsPackets<P>(codec: Codec<P>, dump: seq<byte>, splitAt: nat)
    requires CutAt(codec, dump, None, splitAt).Done?
    ensures var (first, second) := PartsAt(dump, CutAt(codec, dump, None, splitAt)).value;
            first + second == dump && Packets(codec, dump) == Append(Packets(codec, first), Packets(codec, second))
  {
    CutKeepsPackets(codec, dump, StartOf(codec, dump, None), splitAt);
  }

  lemma {:induction false} CutKeepsPackets<P>(codec: Codec<P>, data: seq<byte>, first: nat, splitAt: nat)
    requires CutFrom(codec, data, first, splitAt).Done?
    ensures var cut := CutFrom(codec, data, first, splitAt).value;
            Packets(codec, data) == Append(Packets(codec, data[..cut]), Packets(codec, data[cut..]))
    decreases |data|
  {
    var cut := CutFrom(codec, data, first, splitAt).value;
    var front := FrontOf(data);
    if front.Empty? {
      assert data[..0] == [] && data[0..] == data;
      AppendNothing(Packets(codec, data));
    } else {
      var rest, n := front.rest, |data| - |front.rest|;
      if cut > n {
        CutKeepsPackets(codec, rest, first, splitAt);
      } else {
        assert rest[..0] == [] && rest[0..] == rest;
        AppendNothing(Packets(codec, rest));
      }
      PartsOfFrame(codec, data, cut);
    }
  }

  /** A cut behind the first packet, seen from the packets behind it. */
  lemma PartsOfFrame<P>(codec: Codec<P>, data: seq<byte>, cut: nat)
    requires FrontOf(data).Frame? && |data| - |FrontOf(data).rest| <= cut <= |data| && codec.unmarshal(FrontOf(data).payload).Some?
    requires var rest, k := FrontOf(data).rest, cut - (|data| - |FrontOf(data).rest|);
             Packets(codec, rest) == Append(Packets(codec, rest[..k]), Packets(codec, rest[k..]))
    ensures Packets(codec, data) == Append(Packets(codec, data[..cut]), Packets(codec, data[cut..]))
  {
    var front, k := FrontOf(data), cut - (|data| - |FrontOf(data).rest|);
    FrontOfPrefix(data, cut);
    PacketsOfFrame(codec, data, front.payload, front.rest);
    PacketsOfFrame(codec, data[..cut], front.payload, front.rest[..k]);
    assert data[cut..] == front.rest[k..];
    PrependBoth(codec.unmarshal(front.payload).value, Packets(codec, front.rest[..k]), Packets(codec, front.rest[k..]));
  }

  lemma FrontOfPrefix(data: seq<byte>, cut: nat)
    requires FrontOf(data).Frame? && |data| - |FrontOf(data).rest| <= cut <= |data|
    ensures FrontOf(data[..cut]) == Frame(FrontOf(data).payload, FrontOf(data).rest[..cut - (|data| - |FrontOf(data).rest|)])
  {
    var n := 2 + ReadBe16(data);
    assert ReadBe16(data[..cut]) == ReadBe16(data);
    assert data[..cut][2..n] == data[2..n] && data[..cut][n..] == data[n..][..cut - n];
  }

  lemma PrependBoth<P>(p: P, a: Outcome<seq<P>>, b: Outcome<seq<P>>)
    ensures Cons(p, Append(a, b)) == Append(Cons(p, a), b)
  {
    if a.Done? && b.Done? {
      assert [p] + (a.value + b.value) == [p] + a.value + b.value;
    }
  }

  // ---- Well-formed dumps ----

  predicate Sizes(payloads: seq<seq<byte>>) {
    forall i :: 0 <= i < |payloads| ==> |payloads[i]| < 0x1_0000
  }

  function Encode(payloads: seq<seq<byte>>): seq<byte> {
    if payloads == [] then [] else FrameOf(payloads[0]) + Encode(payloads[1..])
  }

  function FrameOf(payload: seq<byte>): seq<byte> {
    Be16(|payload|) + payload
  }

  lemma Associate(a: seq<byte>, b: seq<byte>, c: seq<byte>)
    ensures a + b + c == a + (b + c)
  {
  }

  function Decoded<P>(codec: Codec<P>, payloads: seq<seq<byte>>): seq<P>
    requires forall i :: 0 <= i < |payloads| ==> codec.unmarshal(payloads[i]).Some?
  {
    seq(|payloads|, i requires 0 <= i < |payloads| => codec.unmarshal(payloads[i]).value)
  }

  lemma FrontOfFrame(payload: seq<byte>, rest: seq<byte>)
    requires |payload| < 0x1_0000
    ensures FrontOf(FrameOf(payload) + rest) == Frame(payload, rest)
    ensures |FrameOf(payload)| == 2 + |payload|
  {
    var data := FrameOf(payload) + rest;
    assert data == Be16(|payload|) + (payload + rest);
    RoundTrip16(|payload|, payload + rest);
    assert data[2..2 + |payload|] == payload && data[2 + |payload|..] == rest;
  }

  lemma EncodedFront(payloads: seq<seq<byte>>, tail: seq<byte>)
    requires Sizes(payloads) && payloads != []
    ensures FrontOf(Encode(payloads) + tail) == Frame(payloads[0], Encode(payloads[1..]) + tail)
  {
    FrontOfFrame(payloads[0], Encode(payloads[1..]) + tail);
    Associate(FrameOf(payloads[0]), Encode(payloads[1..]), tail);
  }

  /** No whole packet stands here: nothing, one byte, or a packet cut short. */
  predicate NoPacket(tail: seq<byte>) {
    |tail| < 2 || |tail| - 2 < (tail[0] as int) * 0x100 + tail[1] as int
  }

  /** Reading back an encoded dump gives its packets, also when a packet behind them is cut short; a stray byte panics. */
  lemma {:induction false} EncodedPackets<P>(codec: Codec<P>, payloads: seq<seq<byte>>, tail: seq<byte>)
    requires Sizes(payloads) && forall i :: 0 <= i < |payloads| ==> codec.unmarshal(payloads[i]).Some?
    ensures NoPacket(tail) && |tail| != 1 ==> Packets(codec, Encode(payloads) + tail) == Done(Decoded(codec, payloads))
    ensures |tail| == 1 ==> Packets(codec, Encode(payloads) + tail) == Panics
    decreases |payloads|
  {
    if payloads == [] {
      assert Encode(payloads) + tail == tail;
      assert Decoded(codec, payloads) == [];
    } else {
      var rest, data := payloads[1..], Encode(payloads) + tail;
      EncodedFront(payloads, tail);
      PacketsOfFrame(codec, data, payloads[0], Encode(rest) + tail);
      EncodedPackets(codec, rest, tail);
      DecodedFront(codec, payloads);
    }
  }

  lemma DecodedFront<P>(codec: Codec<P>, payloads: seq<seq<byte>>)
    requires payloads != [] && forall i :: 0 <= i < |payloads| ==> codec.unmarshal(payloads[i]).Some?
    ensures forall i :: 0 <= i < |payloads[1..]| ==> codec.unmarshal(payloads[1..][i]).Some?
    ensures Decoded(codec, payloads) == [codec.unmarshal(payloads[0]).value] + Decoded(codec, payloads[1..])
  {
    assert forall i :: 0 <= i < |payloads[1..]| ==> payloads[1..][i] == payloads[i + 1];
  }

  /** A packet that cannot be decoded fails the reading, whatever stands behind it. */
  lemma {:induction false} UndecodablePacketFails<P>(codec: Codec<P>, payloads: seq<seq<byte>>, tail: seq<byte>, i: nat)
    requires Sizes(payloads) && i < |payloads| && codec.unmarshal(payloads[i]) == None
    requires forall j :: 0 <= j < i ==> codec.unmarshal(payloads[j]).Some?
    ensures Packets(codec, Encode(payloads) + tail) == Failed
    decreases i
  {
    EncodedFront(payloads, tail);
    PacketsOfFrame(codec, Encode(payloads) + tail, payloads[0], Encode(payloads[1..]) + tail);
    if i > 0 {
      UndecodablePacketFails(codec, payloads[1..], tail, i - 1);
    }
  }

  // ---- Where a dump is cut ----

  /** The packet is of a supported type and has this time. */
  predicate HasTime<P>(codec: Codec<P>, payload: seq<byte>, t: nat) {
    codec.unmarshal(payload).Some? && codec.micros(codec.unmarshal(payload).value) == Some(t)
  }

  predicate HasNoTime<P>(codec: Codec<P>, payload: seq<byte>) {
    codec.unmarshal(payload).Some? ==> codec.micros(codec.unmarshal(payload).value) == None
  }

  /** The packets go to the first part: each is at or after the start, and less than splitAt past it. */
  predicate AllEarly<P>(codec: Codec<P>, payloads: seq<seq<byte>>, times: seq<nat>, start: nat, splitAt: nat, n: nat) {
    && n <= |payloads| == |times|
    && forall j :: 0 <= j < n ==> HasTime(codec, payloads[j], times[j]) && start <= times[j] && times[j] - start < splitAt
  }

  /**
   The first packet that is not early decides: it fails the split if it has no time,
   panics if it is earlier than the start, and is the last of the first part if it is
   splitAt or more past the start. Without one, what is left over decides.
   */
  lemma {:induction false} CutOutcome<P>(codec: Codec<P>, payloads: seq<seq<byte>>, times: seq<nat>, tail: seq<byte>,
                                         start: nat, splitAt: nat, i: nat)
    requires Sizes(payloads) && AllEarly(codec, payloads, times, start, splitAt, i)
    requires i == |payloads| ==> NoPacket(tail)
    ensures IsOutcome(codec, payloads, times, tail, start, splitAt, i, CutFrom(codec, Encode(payloads) + tail, start, splitAt))
    decreases |payloads|
  {
    if payloads == [] {
      assert Encode(payloads) + tail == tail;
    } else {
      CutOfEncoded(codec, payloads, tail, start, splitAt);
      if i == 0 {
        EncodedTo(payloads, 0);
      } else {
        EarlyLater(codec, payloads, times, start, splitAt, i);
        CutOutcome(codec, payloads[1..], times[1..], tail, start, splitAt, i - 1);
        OutcomeLater(codec, payloads, times, tail, start, splitAt, i, CutFrom(codec, Encode(payloads[1..]) + tail, start, splitAt));
      }
    }
  }

  ghost predicate IsOutcome<P>(codec: Codec<P>, payloads: seq<seq<byte>>, times: seq<nat>, tail: seq<byte>,
                               start: nat, splitAt: nat, i: nat, r: Outcome<nat>)
    requires i <= |payloads| == |times|
  {
    if i == |payloads| then r == if tail == [] then Done(|Encode(payloads)|) else Panics
    else
      && (HasNoTime(codec, payloads[i]) ==> r == Failed)
      && (HasTime(codec, payloads[i], times[i]) && times[i] < start ==> r == Panics)
      && (HasTime(codec, payloads[i], times[i]) && times[i] >= start + splitAt ==> r == Done(|Encode(payloads[..i + 1])|))
  }

  lemma OutcomeLater<P>(codec: Codec<P>, payloads: seq<seq<byte>>, times: seq<nat>, tail: seq<byte>,
                        start: nat, splitAt: nat, i: nat, later: Outcome<nat>)
    requires Sizes(payloads) && 0 < i <= |payloads| == |times|
    requires IsOutcome(codec, payloads[1..], times[1..], tail, start, splitAt, i - 1, later)
    ensures IsOutcome(codec, payloads, times, tail, start, splitAt, i, Shift(2 + |payloads[0]|, later))
  {
    if i < |payloads| {
      EncodedTo(payloads, i);
    }
  }

  lemma CutOfEncoded<P>(codec: Codec<P>, payloads: seq<seq<byte>>, tail: seq<byte>, start: nat, splitAt: nat)
    requires Sizes(payloads) && payloads != []
    ensures CutFrom(codec, Encode(payloads) + tail, start, splitAt)
         == CutBehind(TimeOf(codec, payloads[0]), 2 + |payloads[0]|, start, splitAt,
                      CutFrom(codec, Encode(payloads[1..]) + tail, start, splitAt))
  {
    EncodedFront(payloads, tail);
    CutOfFrame(codec, Encode(payloads) + tail, payloads[0], Encode(payloads[1..]) + tail, start, splitAt);
    SizeOfFront(payloads, tail);
  }

  lemma EarlyLater<P>(codec: Codec<P>, payloads: seq<seq<byte>>, times: seq<nat>, start: nat, splitAt: nat, i: nat)
    requires 0 < i && Sizes(payloads) && AllEarly(codec, payloads, times, start, splitAt, i)
    ensures Sizes(payloads[1..]) && AllEarly(codec, payloads[1..], times[1..], start, splitAt, i - 1)
  {
  }

  lemma SizeOfFront(payloads: seq<seq<byte>>, tail: seq<byte>)
    requires Sizes(payloads) && payloads != []
    ensures |Encode(payloads) + tail| - |Encode(payloads[1..]) + tail| == 2 + |payloads[0]|
  {
    FrontOfFrame(payloads[0], []);
  }

  lemma EncodedTo(payloads: seq<seq<byte>>, k: nat)
    requires k < |payloads|
    ensures |Encode(payloads[..k + 1])| == 2 + |payloads[0]| + |Encode(payloads[1..][..k])|
    ensures Encode(payloads[1..][..0]) == []
  {
    assert payloads[..k + 1][1..] == payloads[1..][..k];
  }

  lemma CutOfFrame<P>(codec: Codec<P>, data: seq<byte>, payload: seq<byte>, rest: seq<byte>, start: nat, splitAt: nat)
    requires FrontOf(data) == Frame(payload, rest)
    ensures CutFrom(codec, data, start, splitAt)
         == CutBehind(TimeOf(codec, payload), |data| - |rest|, start, splitAt, CutFrom(codec, rest, start, splitAt))
  {
  }

  lemma {:induction false} EncodeSplit(payloads: seq<seq<byte>>, k: nat)
    requires k <= |payloads|
    ensures Encode(payloads) == Encode(payloads[..k]) + Encode(payloads[k..])
    decreases |payloads|
  {
    if k == 0 {
      assert payloads[0..] == payloads && payloads[..0] == [];
    } else {
      var front, back := Encode(payloads[1..][..k - 1]), Encode(payloads[1..][k - 1..]);
      EncodeSplit(payloads[1..], k - 1);
      assert payloads[..k][1..] == payloads[1..][..k - 1] && payloads[k..] == payloads[1..][k - 1..];
      Associate(FrameOf(payloads[0]), front, back);
    }
  }

  /** The first packet sets the start of a dump. */
  lemma FirstPacketStarts<P>(codec: Codec<P>, payloads: seq<seq<byte>>, tail: seq<byte>, t: nat, splitAt: nat)
    requires Sizes(payloads) && payloads != [] && HasTime(codec, payloads[0], t)
    ensures CutAt(codec, Encode(payloads) + tail, None, splitAt) == CutFrom(codec, Encode(payloads) + tail, t, splitAt)
  {
    EncodedFront(payloads, tail);
  }

  /** How many packets go to the first part: up to and including the first one splitAt past the start. */
  ghost predicate IsCut(times: seq<nat>, splitAt: nat, k: nat) {
    && 0 < k <= |times|
    && (forall i :: 0 <= i < k - 1 ==> times[i] - times[0] < splitAt)
    && (k < |times| ==> times[k - 1] - times[0] >= splitAt)
  }

  /** The first of the packets that is not early, or their number. */
  lemma {:induction false} FirstLate(times: seq<nat>, start: nat, splitAt: nat) returns (i: nat)
    requires forall j :: 0 <= j < |times| ==> start <= times[j]
    ensures i <= |times| && forall j :: 0 <= j < i ==> times[j] - start < splitAt
    ensures i < |times| ==> times[i] - start >= splitAt
    decreases |times|
  {
    if times == [] || times[0] - start >= splitAt {
      i := 0;
    } else {
      var later := FirstLate(times[1..], start, splitAt);
      i := later + 1;
      assert forall j :: 1 <= j < |times| ==> times[j] == times[1..][j - 1];
    }
  }

  /**
   A well-formed dump is cut at a packet boundary: the parts are the dumps of the
   packets up to the first one at least splitAt past the first packet, and of the others.
   */
  lemma SplitsEncodedDump<P>(codec: Codec<P>, payloads: seq<seq<byte>>, times: seq<nat>, splitAt: nat) returns (k: nat)
    requires Sizes(payloads) && payloads != [] && |times| == |payloads|
    requires forall i :: 0 <= i < |payloads| ==> HasTime(codec, payloads[i], times[i]) && times[0] <= times[i]
    ensures IsCut(times, splitAt, k)
    ensures PartsAt(Encode(payloads), CutAt(codec, Encode(payloads), None, splitAt))
         == Done((Encode(payloads[..k]), Encode(payloads[k..])))
  {
    var i := FirstLate(times, times[0], splitAt);
    k := if i < |times| then i + 1 else i;
    FirstPacketStarts(codec, payloads, [], times[0], splitAt);
    CutOutcome(codec, payloads, times, [], times[0], splitAt, i);
    assert Encode(payloads) + [] == Encode(payloads) && payloads[..|payloads|] == payloads;
    EncodeSplit(payloads, k);
  }
}
