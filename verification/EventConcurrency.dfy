/**
 Concurrent calls of the emitter: sends are split into a read-locked phase, in
 which any number of senders may be at once, and a write-locked removal by index.
 Subscribers are numbered in the order they subscribed.
 */
module EventConcurrency {
  import opened EventLists

  /**
   A sender between its phases remembers the list it read. Entries of it before
   intact have not moved since: the lowest index that another sender has taken out
   meanwhile bounds it.
   */
  datatype Sender =
    | Ready
    | Sending(next: nat, gone: set<nat>)
    | Removing(gone: set<nat>, seen: seq<nat>, intact: nat)

  datatype System = System(subscribers: seq<nat>, dead: set<nat>, subscribed: nat, senders: seq<Sender>)

  datatype Step =
    | Begin(t: nat)       // takes the read lock
    | SendNext(t: nat)    // sends to the next subscriber
    | Finish(t: nat)      // gives up the read lock
    | Remove(t: nat)      // under the write lock
    | Subscribe           // under the write lock
    | DropReceiver(c: nat)

  predicate NobodyReads(s: System) {
    forall t :: 0 <= t < |s.senders| ==> !s.senders[t].Sending?
  }

  predicate Enabled(s: System, step: Step) {
    match step
    case Begin(t) => t < |s.senders| && s.senders[t].Ready?
    case SendNext(t) => t < |s.senders| && s.senders[t].Sending? && s.senders[t].next < |s.subscribers|
    case Finish(t) => t < |s.senders| && s.senders[t].Sending? && s.senders[t].next >= |s.subscribers|
    case Remove(t) => t < |s.senders| && s.senders[t].Removing? && NobodyReads(s)
    case Subscribe => NobodyReads(s)
    case DropReceiver(c) => c < s.subscribed
  }

  /** Removing the given indices from a list of n entries moves entries under senders between their phases. */
  function Overtake(senders: seq<Sender>, gone: set<nat>, n: nat): (r: seq<Sender>)
    ensures |r| == |senders|
  {
    seq(|senders|, i requires 0 <= i < |senders| =>
      if senders[i].Removing? then senders[i].(intact := IntactAfter(senders[i].intact, gone, n)) else senders[i])
  }

  function Apply(s: System, step: Step): System
    requires Enabled(s, step)
  {
    match step
    case Begin(t) => s.(senders := s.senders[t := Sending(0, {})])
    case SendNext(t) =>
      var i := s.senders[t].next;
      var gone := s.senders[t].gone + if s.subscribers[i] in s.dead then {i} else {};
      s.(senders := s.senders[t := Sending(i + 1, gone)])
    case Finish(t) =>
      var gone := s.senders[t].gone;
      s.(senders := s.senders[t := if gone == {} then Ready else Removing(gone, s.subscribers, |s.subscribers|)])
    case Remove(t) =>
      var gone := s.senders[t].gone;
      s.(subscribers := Without(s.subscribers, gone), senders := Overtake(s.senders, gone, |s.subscribers|)[t := Ready])
    case Subscribe => s.(subscribers := s.subscribers + [s.subscribed], subscribed := s.subscribed + 1)
    case DropReceiver(c) => s.(dead := s.dead + {c})
  }

  function Start(n: nat): System {
    System([], {}, 0, seq(n, i => Ready))
  }

  predicate Legal(s: System, steps: seq<Step>)
    decreases |steps|
  {
    steps != [] ==> Enabled(s, steps[0]) && Legal(Apply(s, steps[0]), steps[1..])
  }

  function After(s: System, steps: seq<Step>): System
    requires Legal(s, steps)
    decreases |steps|
  {
    if steps == [] then s else After(Apply(s, steps[0]), steps[1..])
  }

  /** All indices the sender collected still name the subscribers it found. */
  predicate StillGood(sender: Sender) {
    sender.Removing? ==> forall i :: i in sender.gone ==> i < sender.intact
  }

  /** Every removal in the run is by a sender whose indices are all below what was taken out since it collected them. */
  predicate RemovalsStillGood(s: System, steps: seq<Step>)
    requires Legal(s, steps)
    decreases |steps|
  {
    steps != [] ==>
      && (steps[0].Remove? ==> StillGood(s.senders[steps[0].t]))
      && RemovalsStillGood(Apply(s, steps[0]), steps[1..])
  }

  function Named(list: seq<nat>, gone: set<nat>): set<nat> {
    set i | i in gone && i < |list| :: list[i]
  }

  /** The subscribers a removal would take out of the list as it is now. */
  function TakenOut(s: System, t: nat): set<nat>
    requires t < |s.senders| && s.senders[t].Removing?
  {
    set c | c in s.subscribers && c !in Without(s.subscribers, s.senders[t].gone)
  }

  /** Every removal in the run takes out exactly the subscribers its sender found dead. */
  predicate RemovalsExact(s: System, steps: seq<Step>)
    requires Legal(s, steps)
    decreases |steps|
  {
    steps != [] ==>
      && (steps[0].Remove? ==>
            TakenOut(s, steps[0].t) == Named(s.senders[steps[0].t].seen, s.senders[steps[0].t].gone))
      && RemovalsExact(Apply(s, steps[0]), steps[1..])
  }

  // ---- What the indices mean ----

  /** The indices name only dead entries of the list. */
  ghost predicate NamesDead(list: seq<nat>, gone: set<nat>, dead: set<nat>) {
    forall i :: i in gone ==> i < |list| && list[i] in dead
  }

  ghost predicate SenderOk(s: System, sender: Sender) {
    match sender
    case Ready => true
    case Sending(_, gone) => NamesDead(s.subscribers, gone, s.dead)
    case Removing(gone, seen, intact) =>
      && NamesDead(seen, gone, s.dead)
      && Distinct(seen) && (forall c :: c in seen ==> c < s.subscribed)
      && Moved(seen, s.subscribers, intact)
  }

  ghost predicate Inv(s: System) {
    && Distinct(s.subscribers)
    && (forall c :: c in s.subscribers ==> c < s.subscribed)
    && (forall t :: 0 <= t < |s.senders| ==> SenderOk(s, s.senders[t]))
  }

  /** Every live subscriber is listed. */
  ghost predicate LiveListed(s: System) {
    forall c :: 0 <= c < s.subscribed && c !in s.dead ==> c in s.subscribers
  }

  lemma StepKeepsInv(s: System, step: Step)
    requires Inv(s) && Enabled(s, step)
    ensures Inv(Apply(s, step))
  {
    var s' := Apply(s, step);
    match step {
      case Remove(t) =>
        WithoutIsDistinct(s.subscribers, s.senders[t].gone);
        forall u | 0 <= u < |s.senders| ensures SenderOk(s', s'.senders[u]) {
          assert SenderOk(s, s.senders[u]);
          if u != t && s.senders[u].Removing? {
            MovedRemove(s.senders[u].seen, s.subscribers, s.senders[u].intact, s.senders[t].gone);
          }
        }
      case Subscribe =>
        assert s.subscribed !in s.subscribers;
        forall u | 0 <= u < |s.senders| ensures SenderOk(s', s'.senders[u]) {
          assert SenderOk(s, s.senders[u]);
          if s.senders[u].Removing? {
            MovedAppend(s.senders[u].seen, s.subscribers, s.senders[u].intact, s.subscribed);
          }
        }
      case Finish(t) =>
        NothingMoved(s.subscribers);
        forall u | 0 <= u < |s.senders| ensures SenderOk(s', s'.senders[u]) {
          assert SenderOk(s, s.senders[u]);
        }
      case _ =>
        forall u | 0 <= u < |s.senders| ensures SenderOk(s', s'.senders[u]) {
          assert SenderOk(s, s.senders[u]);
        }
    }
  }

  // ---- What a removal takes out ----

  lemma TakesOutNamed(s: System, t: nat)
    requires Distinct(s.subscribers) && t < |s.senders| && s.senders[t].Removing?
    ensures TakenOut(s, t) == Named(s.subscribers, s.senders[t].gone)
  {
    var list, gone := s.subscribers, s.senders[t].gone;
    forall c ensures c in TakenOut(s, t) <==> c in Named(list, gone) {
      if c in list {
        var i :| 0 <= i < |list| && list[i] == c;
        WithoutKeeps(list, gone, i);
      }
    }
  }

  /**
   A removal takes out exactly the subscribers its sender found dead if and only if
   no removal since then has taken out an index at or before one of its own.
   */
  lemma RemovalIsExactIff(s: System, t: nat)
    requires Inv(s) && Enabled(s, Remove(t))
    ensures TakenOut(s, t) == Named(s.senders[t].seen, s.senders[t].gone) <==> StillGood(s.senders[t])
  {
    var sender := s.senders[t];
    assert SenderOk(s, sender);
    TakesOutNamed(s, t);
    if StillGood(sender) {
      SameNamed(s.subscribers, sender.seen, sender.intact, sender.gone);
    } else {
      var i := LowestMoved(sender.gone, sender.intact);
      FirstMovedIsMissed(s.subscribers, sender.seen, sender.intact, sender.gone, i);
      assert sender.seen[i] in Named(sender.seen, sender.gone);
    }
  }

  lemma SameNamed(now: seq<nat>, seen: seq<nat>, intact: nat, gone: set<nat>)
    requires Moved(seen, now, intact) && forall i :: i in gone ==> i < intact
    ensures Named(now, gone) == Named(seen, gone)
  {
    forall i | i in gone ensures now[i] == seen[i] {
      MovedIff(seen, now, intact, i);
    }
  }

  /** The lowest index in gone that is not below intact. */
  lemma LowestMoved(gone: set<nat>, intact: nat) returns (i: nat)
    requires exists k :: k in gone && k >= intact
    ensures i in gone && i >= intact && forall k :: k in gone && k >= intact ==> i <= k
    decreases gone
  {
    var first :| first in gone && first >= intact;
    i := first;
    if exists k :: k in gone && intact <= k < first {
      var k :| k in gone && intact <= k < first;
      assert k in gone - {first};
      i := LowestMoved(gone - {first}, intact);
      assert forall l :: l in gone && l >= intact && l != first ==> l in gone - {first};
    }
  }

  /** The first found subscriber that has moved is not taken out. */
  lemma FirstMovedIsMissed(now: seq<nat>, seen: seq<nat>, intact: nat, gone: set<nat>, i: nat)
    requires Distinct(seen) && Moved(seen, now, intact) && intact <= i < |seen|
    requires forall k :: k in gone && k >= intact ==> i <= k
    ensures seen[i] !in Named(now, gone)
  {
    forall k | k in gone && k < |now| ensures now[k] != seen[i] {
      if k < intact {
        MovedIff(seen, now, intact, k);
      }
    }
  }

  /** In any run the removals are exact if and only if their senders' indices were all still good. */
  lemma {:induction false} RunIsExactIff(s: System, steps: seq<Step>)
    requires Inv(s) && Legal(s, steps)
    ensures RemovalsExact(s, steps) <==> RemovalsStillGood(s, steps)
    decreases |steps|
  {
    if steps != [] {
      if steps[0].Remove? {
        RemovalIsExactIff(s, steps[0].t);
      }
      StepKeepsInv(s, steps[0]);
      RunIsExactIff(Apply(s, steps[0]), steps[1..]);
    }
  }

  lemma StepKeepsLive(s: System, step: Step)
    requires Inv(s) && LiveListed(s) && Enabled(s, step)
    requires step.Remove? ==> StillGood(s.senders[step.t])
    ensures LiveListed(Apply(s, step))
  {
    if step.Remove? {
      var sender := s.senders[step.t];
      RemovalIsExactIff(s, step.t);
      assert SenderOk(s, sender);
      forall c | 0 <= c < s.subscribed && c !in s.dead ensures c in Apply(s, step).subscribers {
        assert c !in Named(sender.seen, sender.gone);
        assert c !in TakenOut(s, step.t);
      }
    }
  }

  lemma {:induction false} RunKeepsLive(s: System, steps: seq<Step>)
    requires Inv(s) && LiveListed(s) && Legal(s, steps) && RemovalsStillGood(s, steps)
    ensures Inv(After(s, steps)) && LiveListed(After(s, steps))
    decreases |steps|
  {
    if steps != [] {
      StepKeepsInv(s, steps[0]);
      StepKeepsLive(s, steps[0]);
      RunKeepsLive(Apply(s, steps[0]), steps[1..]);
    }
  }

  /**
   Every interleaving of senders, subscriptions and receiver drops: each removal
   takes out exactly what its sender found dead if and only if all indices were still
   good, and then no live subscriber is ever lost.
   */
  lemma NoLiveSubscriberIsLost(n: nat, steps: seq<Step>)
    requires Legal(Start(n), steps)
    ensures RemovalsExact(Start(n), steps) <==> RemovalsStillGood(Start(n), steps)
    ensures RemovalsStillGood(Start(n), steps) ==> LiveListed(After(Start(n), steps))
  {
    RunIsExactIff(Start(n), steps);
    if RemovalsStillGood(Start(n), steps) {
      RunKeepsLive(Start(n), steps);
    }
  }

  // ---- A run that loses a live subscriber ----

  predicate Leads(s: System, steps: seq<Step>, s': System) {
    Legal(s, steps) && After(s, steps) == s'
  }

  lemma {:induction false} LeadsOn(s: System, a: seq<Step>, s': System, b: seq<Step>, s'': System)
    requires Leads(s, a, s') && Leads(s', b, s'')
    ensures Leads(s, a + b, s'')
    decreases |a|
  {
    if a == [] {
      assert a + b == b;
    } else {
      LeadsOn(Apply(s, a[0]), a[1..], s', b, s'');
      assert (a + b)[1..] == a[1..] + b;
    }
  }

  lemma Take(s: System, steps: seq<Step>, s': System, step: Step, s'': System) returns (more: seq<Step>)
    requires Leads(s, steps, s') && Enabled(s', step) && Apply(s', step) == s''
    ensures Leads(s, more, s'')
  {
    more := steps + [step];
    assert [step][1..] == [];
    LeadsOn(s, steps, s', [step], s'');
  }

  const TWO := System([0, 1], {0}, 2, [Ready, Ready])
  const FOUND := Removing({0}, [0, 1], 2)

  /** Two subscribers, the first of them gone. */
  lemma TwoSubscribe() returns (steps: seq<Step>)
    ensures Leads(Start(2), steps, TWO)
  {
    steps := Take(Start(2), [], Start(2), Subscribe, System([0], {}, 1, [Ready, Ready]));
    steps := Take(Start(2), steps, System([0], {}, 1, [Ready, Ready]), Subscribe, System([0, 1], {}, 2, [Ready, Ready]));
    steps := Take(Start(2), steps, System([0, 1], {}, 2, [Ready, Ready]), DropReceiver(0), TWO);
  }

  function WithSender(senders: seq<Sender>, t: nat, sender: Sender): System
    requires t < |senders|
  {
    System([0, 1], {0}, 2, senders[t := sender])
  }

  /** A sender goes through the list and finds the first subscriber dead. */
  lemma FindsIt(senders: seq<Sender>, t: nat) returns (steps: seq<Step>)
    requires t < |senders| && senders[t] == Ready
    ensures Leads(System([0, 1], {0}, 2, senders), steps, WithSender(senders, t, FOUND))
  {
    var s := System([0, 1], {0}, 2, senders);
    steps := Take(s, [], s, Begin(t), WithSender(senders, t, Sending(0, {})));
    steps := SendsTo(s, steps, senders, t, 0, {});
    steps := SendsTo(s, steps, senders, t, 1, {0});
    steps := Take(s, steps, WithSender(senders, t, Sending(2, {0})), Finish(t), WithSender(senders, t, FOUND));
  }

  lemma SendsTo(s: System, steps: seq<Step>, senders: seq<Sender>, t: nat, i: nat, gone: set<nat>) returns (more: seq<Step>)
    requires t < |senders| && i < 2 && gone == (if i == 0 then {} else {0})
    requires Leads(s, steps, WithSender(senders, t, Sending(i, gone)))
    ensures Leads(s, more, WithSender(senders, t, Sending(i + 1, {0})))
  {
    assert senders[t := Sending(i, gone)][t := Sending(i + 1, {0})] == senders[t := Sending(i + 1, {0})];
    assert gone + (if i == 0 then {i} else {}) == {0};
    more := Take(s, steps, WithSender(senders, t, Sending(i, gone)), SendNext(t), WithSender(senders, t, Sending(i + 1, {0})));
  }

  lemma BothRemove()
    ensures Apply(System([0, 1], {0}, 2, [FOUND, FOUND]), Remove(0)) == System([1], {0}, 2, [Ready, FOUND.(intact := 0)])
    ensures Apply(System([1], {0}, 2, [Ready, FOUND.(intact := 0)]), Remove(1)) == System([], {0}, 2, [Ready, Ready])
  {
    assert [0, 1][..1] == [0] && [0][..0] == [] && Without([0], {0}) == [];
    assert [1][..0] == [] && Without([1], {0}) == [];
    assert FirstIn({0}, 1) == 0 && FirstIn({0}, 2) == 0;
  }

  /** Two senders that find the same dead subscriber with a live one behind it: the second removal takes out the live one. */
  lemma OvertakenRemovalLosesLive() returns (steps: seq<Step>)
    ensures Legal(Start(2), steps) && !RemovalsStillGood(Start(2), steps) && !LiveListed(After(Start(2), steps))
  {
    steps := TwoSubscribe();
    var first := FindsIt([Ready, Ready], 0);
    var found := System([0, 1], {0}, 2, [FOUND, Ready]);
    assert WithSender([Ready, Ready], 0, FOUND) == found;
    LeadsOn(Start(2), steps, TWO, first, found);
    steps := steps + first;
    steps := SecondFindsItToo(steps);
    var lost := System([], {0}, 2, [Ready, Ready]);
    assert 1 !in lost.dead && 1 !in lost.subscribers;
    NoLiveSubscriberIsLost(2, steps);
  }

  lemma SecondFindsItToo(steps: seq<Step>) returns (more: seq<Step>)
    requires Leads(Start(2), steps, System([0, 1], {0}, 2, [FOUND, Ready]))
    ensures Leads(Start(2), more, System([], {0}, 2, [Ready, Ready]))
  {
    var second := FindsIt([FOUND, Ready], 1);
    var both, one := System([0, 1], {0}, 2, [FOUND, FOUND]), System([1], {0}, 2, [Ready, FOUND.(intact := 0)]);
    assert WithSender([FOUND, Ready], 1, FOUND) == both;
    LeadsOn(Start(2), steps, System([0, 1], {0}, 2, [FOUND, Ready]), second, both);
    BothRemove();
    more := Take(Start(2), steps + second, both, Remove(0), one);
    more := Take(Start(2), more, one, Remove(1), System([], {0}, 2, [Ready, Ready]));
  }
}
