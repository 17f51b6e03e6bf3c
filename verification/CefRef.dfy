/**
 Reference counting of CEF objects, as a machine of threads whose atomic steps
 interleave in any order. Atomics are sequentially consistent; a panic in one of
 the C callbacks aborts the process.
 */
module CefRef {
  const USIZE := 0x1_0000_0000_0000_0000
  const MAX_REFCOUNT := 0x7FFF_FFFF_FFFF_FFFF

  /** Between the atomic step of a call and its end, a thread is about to check the old count, or to free the object. */
  datatype Pc = Idle | Checking(oldCount: nat) | Freeing

  /** A thread, with the references it holds as raw pointers and as CefRc values. */
  datatype Thread = Thread(raw: nat, owned: nat, pc: Pc)

  /** lastReleases counts the calls of release that return 1, frees the times the memory was given back. */
  datatype Machine = Machine(count: nat, threads: seq<Thread>, lastReleases: nat, frees: nat, aborted: bool)

  datatype Step =
    | AddRef(t: nat)                  // fetch_add through any reference; also CefRc::get
    | CheckCount(t: nat)              // the end of add_ref: panic above the limit
    | Wrap(t: nat)                    // CefRc::new
    | Release(t: nat)                 // fetch_sub through a raw pointer
    | DropRc(t: nat)                  // fetch_sub by dropping a CefRc
    | Free(t: nat)                    // the end of the release that saw a count of 1
    | Query(t: nat)                   // has_one_ref, has_at_least_one_ref
    | SendRaw(t: nat, to: nat)        // hands a reference to another thread
    | SendRc(t: nat, to: nat)

  /** A thread acts only through references it holds. */
  predicate Enabled(m: Machine, s: Step) {
    && !m.aborted && s.t < |m.threads|
    && var th := m.threads[s.t];
       match s
       case AddRef(_) => th.pc == Idle && th.raw + th.owned >= 1
       case CheckCount(_) => th.pc.Checking?
       case Wrap(_) => th.pc == Idle && th.raw >= 1
       case Release(_) => th.pc == Idle && th.raw >= 1
       case DropRc(_) => th.pc == Idle && th.owned >= 1
       case Free(_) => th.pc == Freeing
       case Query(_) => th.pc == Idle && th.raw + th.owned >= 1
       case SendRaw(_, to) => th.pc == Idle && th.raw >= 1 && to < |m.threads|
       case SendRc(_, to) => th.pc == Idle && th.owned >= 1 && to < |m.threads|
  }

  /** The steps that access the memory of the object. */
  predicate Touches(s: Step) {
    s.AddRef? || s.Release? || s.DropRc? || s.Free? || s.Query?
  }

  /** fetch_sub by a thread that is left with the given references. */
  function FetchSub(m: Machine, t: nat, th: Thread): Machine
    requires t < |m.threads|
  {
    var last := m.count == 1;
    m.(count := (m.count - 1) % USIZE,
       threads := m.threads[t := th.(pc := if last then Freeing else Idle)],
       lastReleases := m.lastReleases + if last then 1 else 0)
  }

  function Apply(m: Machine, s: Step): Machine
    requires Enabled(m, s)
  {
    var th := m.threads[s.t];
    match s
    case AddRef(t) => m.(count := (m.count + 1) % USIZE, threads := m.threads[t := th.(pc := Checking(m.count))])
    case CheckCount(t) =>
      if th.pc.oldCount > MAX_REFCOUNT then m.(aborted := true)
      else m.(threads := m.threads[t := th.(raw := th.raw + 1, pc := Idle)])
    case Wrap(t) => m.(threads := m.threads[t := th.(raw := th.raw - 1, owned := th.owned + 1)])
    case Release(t) => FetchSub(m, t, th.(raw := th.raw - 1))
    case DropRc(t) => FetchSub(m, t, th.(owned := th.owned - 1))
    case Free(t) => m.(threads := m.threads[t := th.(pc := Idle)], frees := m.frees + 1)
    case Query(_) => m
    case SendRaw(t, to) =>
      var ts := m.threads[t := th.(raw := th.raw - 1)];
      m.(threads := ts[to := ts[to].(raw := ts[to].raw + 1)])
    case SendRc(t, to) =>
      var ts := m.threads[t := th.(owned := th.owned - 1)];
      m.(threads := ts[to := ts[to].(owned := ts[to].owned + 1)])
  }

  /** new_ptr on thread 0 of n threads. */
  function Created(n: nat): Machine
    requires n >= 1
  {
    Machine(1, seq(n, i => Thread(if i == 0 then 1 else 0, 0, Idle)), 0, 0, false)
  }

  predicate Legal(m: Machine, steps: seq<Step>)
    decreases |steps|
  {
    steps != [] ==> Enabled(m, steps[0]) && Legal(Apply(m, steps[0]), steps[1..])
  }

  function After(m: Machine, steps: seq<Step>): Machine
    requires Legal(m, steps)
    decreases |steps|
  {
    if steps == [] then m else After(Apply(m, steps[0]), steps[1..])
  }

  // ---- Counting over threads ----

  function Sum(f: Thread -> nat, ts: seq<Thread>): nat {
    if ts == [] then 0 else f(ts[0]) + Sum(f, ts[1..])
  }

  /** References of a thread; one that add_ref has counted but not yet returned is outstanding too. */
  function Held(th: Thread): nat {
    th.raw + th.owned + if th.pc.Checking? then 1 else 0
  }

  function IsFreeing(th: Thread): nat {
    if th.pc == Freeing then 1 else 0
  }

  /** Threads that are going to panic. */
  function IsDoomed(th: Thread): nat {
    if th.pc.Checking? && th.pc.oldCount > MAX_REFCOUNT then 1 else 0
  }

  function Outstanding(m: Machine): nat {
    Sum(Held, m.threads)
  }

  lemma {:induction false} SumUpdate(f: Thread -> nat, ts: seq<Thread>, i: nat, th: Thread)
    requires i < |ts|
    ensures Sum(f, ts[i := th]) == Sum(f, ts) - f(ts[i]) + f(th)
  {
    if i == 0 {
      assert ts[0 := th][1..] == ts[1..];
    } else {
      SumUpdate(f, ts[1..], i - 1, th);
      assert ts[i := th][1..] == ts[1..][i - 1 := th];
    }
  }

  lemma {:induction false} SumAtLeast(f: Thread -> nat, ts: seq<Thread>, i: nat)
    requires i < |ts|
    ensures f(ts[i]) <= Sum(f, ts)
  {
    if i > 0 {
      SumAtLeast(f, ts[1..], i - 1);
    }
  }

  lemma {:induction false} SumAtMost(f: Thread -> nat, ts: seq<Thread>)
    requires forall i :: 0 <= i < |ts| ==> f(ts[i]) <= 1
    ensures Sum(f, ts) <= |ts|
  {
    if ts != [] {
      SumAtMost(f, ts[1..]);
    }
  }

  lemma {:induction false} SumZero(f: Thread -> nat, ts: seq<Thread>)
    requires forall i :: 0 <= i < |ts| ==> f(ts[i]) == 0
    ensures Sum(f, ts) == 0
  {
    if ts != [] {
      SumZero(f, ts[1..]);
    }
  }

  // ---- The invariant ----

  /**
   The counter is the number of outstanding references. While there are any, nothing
   has been or is being freed; once there are none, exactly one release has returned
   1 and its thread has freed the object or is the only one about to.
   */
  ghost predicate Inv(m: Machine) {
    && 1 <= |m.threads| <= MAX_REFCOUNT
    && m.count == Outstanding(m) <= MAX_REFCOUNT + 1 + Sum(IsDoomed, m.threads)
    && m.lastReleases == (if Outstanding(m) == 0 then 1 else 0)
    && m.frees + Sum(IsFreeing, m.threads) == m.lastReleases
  }

  lemma CreatedInv(n: nat)
    requires 1 <= n <= MAX_REFCOUNT
    ensures Inv(Created(n))
  {
    var none := seq(n, i => Thread(0, 0, Idle));
    var ts := Created(n).threads;
    assert ts == none[0 := Thread(1, 0, Idle)];
    SumZero(Held, none);
    SumZero(IsFreeing, none);
    SumZero(IsDoomed, none);
    SumUpdate(Held, none, 0, ts[0]);
    SumUpdate(IsFreeing, none, 0, ts[0]);
    SumUpdate(IsDoomed, none, 0, ts[0]);
  }

  /** How replacing one thread changes the three sums. */
  lemma ReplaceThread(ts: seq<Thread>, t: nat, th: Thread)
    requires t < |ts|
    ensures Sum(Held, ts[t := th]) == Sum(Held, ts) - Held(ts[t]) + Held(th)
    ensures Sum(IsFreeing, ts[t := th]) == Sum(IsFreeing, ts) - IsFreeing(ts[t]) + IsFreeing(th)
    ensures Sum(IsDoomed, ts[t := th]) == Sum(IsDoomed, ts) - IsDoomed(ts[t]) + IsDoomed(th)
    ensures Sum(IsDoomed, ts[t := th]) <= |ts|
    ensures Held(ts[t]) <= Sum(Held, ts) && IsFreeing(ts[t]) <= Sum(IsFreeing, ts)
  {
    SumUpdate(Held, ts, t, th);
    SumUpdate(IsFreeing, ts, t, th);
    SumUpdate(IsDoomed, ts, t, th);
    SumAtMost(IsDoomed, ts[t := th]);
    SumAtLeast(Held, ts, t);
    SumAtLeast(IsFreeing, ts, t);
  }

  /** Handing a reference over moves it from one thread to another. */
  lemma HandOver(ts: seq<Thread>, t: nat, th: Thread, to: nat, th': Thread)
    requires t < |ts| && to < |ts|
    requires Held(th) == Held(ts[t]) - 1 && th.pc == ts[t].pc
    requires Held(th') == Held(ts[t := th][to]) + 1 && th'.pc == ts[t := th][to].pc
    ensures var ts' := ts[t := th][to := th'];
            && Sum(Held, ts') == Sum(Held, ts)
            && Sum(IsFreeing, ts') == Sum(IsFreeing, ts)
            && Sum(IsDoomed, ts') == Sum(IsDoomed, ts)
  {
    ReplaceThread(ts, t, th);
    ReplaceThread(ts[t := th], to, th');
  }

  lemma FetchSubKeepsInv(m: Machine, t: nat, th: Thread)
    requires Inv(m) && t < |m.threads| && m.threads[t].pc == Idle && th.pc == Idle
    requires Held(th) == Held(m.threads[t]) - 1
    ensures Inv(FetchSub(m, t, th))
  {
    ReplaceThread(m.threads, t, FetchSub(m, t, th).threads[t]);
    SumAtMost(IsDoomed, m.threads);
  }

  lemma ThreadStepKeepsInv(m: Machine, s: Step)
    requires Inv(m) && Enabled(m, s) && (s.AddRef? || s.CheckCount? || s.Wrap? || s.Free?)
    ensures Inv(Apply(m, s))
  {
    SumAtMost(IsDoomed, m.threads);
    if !Apply(m, s).aborted {
      ReplaceThread(m.threads, s.t, Apply(m, s).threads[s.t]);
    }
  }

  lemma SendKeepsInv(m: Machine, s: Step)
    requires Inv(m) && Enabled(m, s) && (s.SendRaw? || s.SendRc?)
    ensures Inv(Apply(m, s))
  {
    var th := m.threads[s.t];
    var th' := if s.SendRaw? then th.(raw := th.raw - 1) else th.(owned := th.owned - 1);
    HandOver(m.threads, s.t, th', s.to, Apply(m, s).threads[s.to]);
  }

  lemma StepKeepsInv(m: Machine, s: Step)
    requires Inv(m) && Enabled(m, s)
    ensures Inv(Apply(m, s))
  {
    var th := m.threads[s.t];
    if s.SendRaw? || s.SendRc? {
      SendKeepsInv(m, s);
    } else if s.Release? {
      FetchSubKeepsInv(m, s.t, th.(raw := th.raw - 1));
    } else if s.DropRc? {
      FetchSubKeepsInv(m, s.t, th.(owned := th.owned - 1));
    } else if !s.Query? {
      ThreadStepKeepsInv(m, s);
    }
  }

  /** A step that touches the object is only possible while the object is there. */
  lemma TouchIsSafe(m: Machine, s: Step)
    requires Inv(m) && Enabled(m, s) && Touches(s)
    ensures m.frees == 0
    ensures !s.Free? ==> m.lastReleases == 0 && Sum(IsFreeing, m.threads) == 0
  {
    SumAtLeast(Held, m.threads, s.t);
    SumAtLeast(IsFreeing, m.threads, s.t);
  }

  // ---- Whole runs ----

  lemma {:induction false} RunKeepsInv(m: Machine, steps: seq<Step>)
    requires Inv(m) && Legal(m, steps)
    ensures Inv(After(m, steps))
    decreases |steps|
  {
    if steps != [] {
      StepKeepsInv(m, steps[0]);
      RunKeepsInv(Apply(m, steps[0]), steps[1..]);
    }
  }

  /**
   In every interleaving the counter is the number of outstanding references; the
   object is freed at most once, by the one release that returns 1, after the last
   reference is gone; from that release on, nothing but its own free can touch it.
   */
  lemma EveryInterleavingIsSafe(n: nat, steps: seq<Step>, next: Step)
    requires 1 <= n <= MAX_REFCOUNT && Legal(Created(n), steps)
    ensures var m := After(Created(n), steps);
            && m.count == Outstanding(m)
            && (m.lastReleases == 1 <==> Outstanding(m) == 0) && m.lastReleases <= 1
            && m.frees <= m.lastReleases
            && (Enabled(m, next) && Touches(next) ==> m.frees == 0)
            && (Enabled(m, next) && Touches(next) && m.lastReleases == 1 ==> next.Free?)
  {
    var m := After(Created(n), steps);
    CreatedInv(n);
    RunKeepsInv(Created(n), steps);
    if Enabled(m, next) && Touches(next) {
      TouchIsSafe(m, next);
    }
  }

  /** Once every call has returned and no reference is left, the object has been freed exactly once; never before. */
  lemma FreedExactlyWhenDone(n: nat, steps: seq<Step>)
    requires 1 <= n <= MAX_REFCOUNT && Legal(Created(n), steps)
    requires forall t :: 0 <= t < n && t < |After(Created(n), steps).threads| ==> After(Created(n), steps).threads[t].pc == Idle
    ensures var m := After(Created(n), steps);
            |m.threads| == n && m.frees == if Outstanding(m) == 0 then 1 else 0
  {
    var m := After(Created(n), steps);
    CreatedInv(n);
    RunKeepsInv(Created(n), steps);
    SameThreads(Created(n), steps);
    SumZero(IsFreeing, m.threads);
  }

  lemma {:induction false} SameThreads(m: Machine, steps: seq<Step>)
    requires Legal(m, steps)
    ensures |After(m, steps).threads| == |m.threads|
    decreases |steps|
  {
    if steps != [] {
      SameThreads(Apply(m, steps[0]), steps[1..]);
    }
  }

  // ---- When add_ref panics, and that every call returns ----

  /** A prefix of a run is a run, and leads to the next step. */
  lemma {:induction false} PrefixIsLegal(m: Machine, steps: seq<Step>, k: nat)
    requires Legal(m, steps) && k <= |steps|
    ensures Legal(m, steps[..k])
    ensures k < |steps| ==> Enabled(After(m, steps[..k]), steps[k])
    decreases k
  {
    if k > 0 {
      assert steps[..k][1..] == steps[1..][..k - 1];
      PrefixIsLegal(Apply(m, steps[0]), steps[1..], k - 1);
    }
  }

  /** The machine before step k of a run. */
  function Before(m: Machine, steps: seq<Step>, k: nat): Machine
    requires Legal(m, steps) && k <= |steps|
  {
    PrefixIsLegal(m, steps, k);
    After(m, steps[..k])
  }

  lemma {:induction false} NextStep(m: Machine, steps: seq<Step>, k: nat)
    requires Legal(m, steps) && k < |steps|
    ensures Enabled(Before(m, steps, k), steps[k]) && Before(m, steps, k + 1) == Apply(Before(m, steps, k), steps[k])
    decreases k
  {
    PrefixIsLegal(m, steps, k);
    PrefixIsLegal(m, steps, k + 1);
    assert steps[..k + 1][1..] == steps[1..][..k];
    if k == 0 {
      assert steps[..0] == [] && steps[1..][..0] == [] && steps[..1][0] == steps[0];
      assert After(m, steps[..1]) == After(Apply(m, steps[0]), []);
    } else {
      assert steps[..k][1..] == steps[1..][..k - 1];
      NextStep(Apply(m, steps[0]), steps[1..], k - 1);
    }
  }

  lemma WholeRun(m: Machine, steps: seq<Step>)
    requires Legal(m, steps)
    ensures Before(m, steps, |steps|) == After(m, steps)
  {
    assert steps[..|steps|] == steps;
  }

  /** Step j is the end of the call of add_ref that began with step i. */
  predicate IsCallOf(steps: seq<Step>, i: nat, j: nat) {
    && i < j < |steps| && steps[i].AddRef? && steps[j] == CheckCount(steps[i].t)
    && forall k :: i < k < j ==> steps[k].t != steps[i].t
  }

  /** The steps of other threads do not touch where a thread is in its call. */
  lemma OthersKeepPc(m: Machine, s: Step, t: nat)
    requires Enabled(m, s) && t < |m.threads| && s.t != t
    ensures t < |Apply(m, s).threads| && Apply(m, s).threads[t].pc == m.threads[t].pc
  {
  }

  /** Only add_ref brings a thread to the check. */
  lemma CheckingBegins(m: Machine, s: Step)
    requires Enabled(m, s)
    ensures var m' := Apply(m, s);
            s.t < |m'.threads| && (!m'.aborted && m'.threads[s.t].pc.Checking? ==> s.AddRef? && m'.threads[s.t].pc.oldCount == m.count)
  {
  }

  /** A thread about to check a count read it at the beginning of its call. */
  lemma {:induction false} CheckingSince(n: nat, steps: seq<Step>, k: nat, t: nat) returns (i: nat)
    requires n >= 1 && Legal(Created(n), steps) && k <= |steps|
    requires var m := Before(Created(n), steps, k);
             t < |m.threads| && m.threads[t].pc.Checking? && !m.aborted
    ensures i < k && steps[i] == AddRef(t) && forall l :: i < l < k ==> steps[l].t != t
    ensures Before(Created(n), steps, k).threads[t].pc.oldCount == Before(Created(n), steps, i).count
    decreases k
  {
    assert steps[..0] == [];
    NextStep(Created(n), steps, k - 1);
    if steps[k - 1].t == t {
      i := k - 1;
      CheckingBegins(Before(Created(n), steps, i), steps[i]);
    } else {
      OthersKeepPc(Before(Created(n), steps, k - 1), steps[k - 1], t);
      i := CheckingSince(n, steps, k - 1, t);
    }
  }

  lemma {:induction false} StaysChecking(m: Machine, steps: seq<Step>, i: nat, j: nat)
    requires Legal(m, steps) && i < j <= |steps| && steps[i].AddRef?
    requires forall k :: i < k < j ==> steps[k].t != steps[i].t
    ensures steps[i].t < |Before(m, steps, j).threads|
    ensures Before(m, steps, j).threads[steps[i].t].pc == Checking(Before(m, steps, i).count)
    decreases j
  {
    NextStep(m, steps, j - 1);
    if j - 1 > i {
      StaysChecking(m, steps, i, j - 1);
      OthersKeepPc(Before(m, steps, j - 1), steps[j - 1], steps[i].t);
    }
  }

  lemma InvBefore(n: nat, steps: seq<Step>, k: nat)
    requires 1 <= n <= MAX_REFCOUNT && Legal(Created(n), steps) && k <= |steps|
    ensures Inv(Before(Created(n), steps, k))
  {
    PrefixIsLegal(Created(n), steps, k);
    CreatedInv(n);
    RunKeepsInv(Created(n), steps[..k]);
  }

  /** A run aborts if and only if a call of add_ref ends in it that began with more than MAX_REFCOUNT references outstanding. */
  lemma AbortsIff(n: nat, steps: seq<Step>)
    requires 1 <= n <= MAX_REFCOUNT && Legal(Created(n), steps)
    ensures After(Created(n), steps).aborted
        <==> exists i, j :: IsCallOf(steps, i, j) && Outstanding(Before(Created(n), steps, i)) > MAX_REFCOUNT
  {
    WholeRun(Created(n), steps);
    if After(Created(n), steps).aborted {
      var i, j := AbortedByCall(n, steps);
    }
    forall i, j | IsCallOf(steps, i, j) && Outstanding(Before(Created(n), steps, i)) > MAX_REFCOUNT
      ensures After(Created(n), steps).aborted
    {
      CallAborts(n, steps, i, j);
    }
  }

  lemma AbortedByCall(n: nat, steps: seq<Step>) returns (i: nat, j: nat)
    requires 1 <= n <= MAX_REFCOUNT && Legal(Created(n), steps) && After(Created(n), steps).aborted
    ensures IsCallOf(steps, i, j) && Outstanding(Before(Created(n), steps, i)) > MAX_REFCOUNT
  {
    WholeRun(Created(n), steps);
    j := |steps| - 1;
    NextStep(Created(n), steps, j);
    i := CheckingSince(n, steps, j, steps[j].t);
    InvBefore(n, steps, i);
  }

  lemma CallAborts(n: nat, steps: seq<Step>, i: nat, j: nat)
    requires 1 <= n <= MAX_REFCOUNT && Legal(Created(n), steps)
    requires IsCallOf(steps, i, j) && Outstanding(Before(Created(n), steps, i)) > MAX_REFCOUNT
    ensures After(Created(n), steps).aborted
  {
    InvBefore(n, steps, i);
    StaysChecking(Created(n), steps, i, j);
    NextStep(Created(n), steps, j);
    WholeRun(Created(n), steps);
    if j + 1 < |steps| {
      NextStep(Created(n), steps, j + 1);
    }
  }

  function AddRefs(steps: seq<Step>): nat {
    if steps == [] then 0 else AddRefs(steps[..|steps| - 1]) + if steps[|steps| - 1].AddRef? then 1 else 0
  }

  lemma {:induction false} AddRefsBefore(steps: seq<Step>, i: nat)
    requires i < |steps| && steps[i].AddRef?
    ensures AddRefs(steps[..i]) < AddRefs(steps)
    decreases |steps|
  {
    var front := steps[..|steps| - 1];
    if i < |front| {
      AddRefsBefore(front, i);
      assert front[..i] == steps[..i];
    }
  }

  /** Only add_ref makes references. */
  lemma {:induction false} OutstandingAtMost(n: nat, steps: seq<Step>, k: nat)
    requires 1 <= n <= MAX_REFCOUNT && Legal(Created(n), steps) && k <= |steps|
    ensures Outstanding(Before(Created(n), steps, k)) <= 1 + AddRefs(steps[..k])
    decreases k
  {
    InvBefore(n, steps, k);
    if k > 0 {
      OutstandingAtMost(n, steps, k - 1);
      InvBefore(n, steps, k - 1);
      NextStep(Created(n), steps, k - 1);
      assert steps[..k][..k - 1] == steps[..k - 1];
      CountStep(Before(Created(n), steps, k - 1), steps[k - 1]);
    }
  }

  lemma CountStep(m: Machine, s: Step)
    requires Inv(m) && Enabled(m, s)
    ensures Apply(m, s).count <= m.count + if s.AddRef? then 1 else 0
  {
    SumAtLeast(Held, m.threads, s.t);
  }

  /** Up to MAX_REFCOUNT calls of add_ref never panic. */
  lemma FewAddRefsNeverAbort(n: nat, steps: seq<Step>)
    requires 1 <= n <= MAX_REFCOUNT && Legal(Created(n), steps) && AddRefs(steps) <= MAX_REFCOUNT
    ensures !After(Created(n), steps).aborted
  {
    if After(Created(n), steps).aborted {
      var i, j := AbortedByCall(n, steps);
      OutstandingAtMost(n, steps, i);
      AddRefsBefore(steps, i);
    }
  }

  /** A call of add_ref that does not panic returns, with one reference more and nothing else changed. */
  lemma AddRefReturns(n: nat, steps: seq<Step>, i: nat, j: nat)
    requires 1 <= n <= MAX_REFCOUNT && Legal(Created(n), steps) && IsCallOf(steps, i, j)
    requires Outstanding(Before(Created(n), steps, i)) <= MAX_REFCOUNT
    ensures var m, t := Before(Created(n), steps, j), steps[i].t;
            && t < |m.threads|
            && Before(Created(n), steps, j + 1)
               == m.(threads := m.threads[t := Thread(m.threads[t].raw + 1, m.threads[t].owned, Idle)])
  {
    InvBefore(n, steps, i);
    StaysChecking(Created(n), steps, i, j);
    NextStep(Created(n), steps, j);
  }

  /** What a thread still has to do: end its call, and release what it holds. */
  function WorkOf(th: Thread): nat {
    2 * (th.raw + th.owned) + match th.pc case Idle => 0 case Checking(_) => 3 case Freeing => 1
  }

  /** A step by which a thread gets on. */
  function NextOf(th: Thread, t: nat): Step {
    match th.pc
    case Checking(_) => CheckCount(t)
    case Freeing => Free(t)
    case Idle => if th.raw >= 1 then Release(t) else DropRc(t)
  }

  lemma StepGetsOn(m: Machine, t: nat)
    requires !m.aborted && t < |m.threads| && WorkOf(m.threads[t]) > 0 && IsDoomed(m.threads[t]) == 0
    ensures var s := NextOf(m.threads[t], t);
            && Enabled(m, s) && !Apply(m, s).aborted && |Apply(m, s).threads| == |m.threads|
            && Sum(WorkOf, Apply(m, s).threads) < Sum(WorkOf, m.threads)
            && forall u :: 0 <= u < |m.threads| && IsDoomed(m.threads[u]) == 0 ==> IsDoomed(Apply(m, s).threads[u]) == 0
  {
    var m' := Apply(m, NextOf(m.threads[t], t));
    SumUpdate(WorkOf, m.threads, t, m'.threads[t]);
    assert m'.threads == m.threads[t := m'.threads[t]];
  }

  /** No call is ever stuck: from any state in which no thread is over the limit all references can be given back, and then the object is gone. */
  lemma {:induction false} CanFinish(m: Machine) returns (more: seq<Step>)
    requires Inv(m) && !m.aborted && forall t :: 0 <= t < |m.threads| ==> IsDoomed(m.threads[t]) == 0
    ensures Legal(m, more) && Outstanding(After(m, more)) == 0 && After(m, more).frees == 1
    decreases Sum(WorkOf, m.threads)
  {
    if t :| 0 <= t < |m.threads| && WorkOf(m.threads[t]) > 0 {
      var s := NextOf(m.threads[t], t);
      StepGetsOn(m, t);
      StepKeepsInv(m, s);
      var later := CanFinish(Apply(m, s));
      more := [s] + later;
      assert more[1..] == later;
    } else {
      more := [];
      SumZero(Held, m.threads);
      SumZero(IsFreeing, m.threads);
    }
  }

  /** After any run with at most MAX_REFCOUNT calls of add_ref every reference can still be given back, and then the object is freed. */
  lemma NothingIsStuck(n: nat, steps: seq<Step>) returns (more: seq<Step>)
    requires 1 <= n <= MAX_REFCOUNT && Legal(Created(n), steps) && AddRefs(steps) <= MAX_REFCOUNT
    ensures Legal(After(Created(n), steps), more)
    ensures Outstanding(After(After(Created(n), steps), more)) == 0 && After(After(Created(n), steps), more).frees == 1
  {
    var m := After(Created(n), steps);
    FewAddRefsNeverAbort(n, steps);
    CreatedInv(n);
    RunKeepsInv(Created(n), steps);
    WholeRun(Created(n), steps);
    forall t | 0 <= t < |m.threads| ensures IsDoomed(m.threads[t]) == 0 {
      if m.threads[t].pc.Checking? {
        var i := CheckingSince(n, steps, |steps|, t);
        InvBefore(n, steps, i);
        OutstandingAtMost(n, steps, i);
        AddRefsBefore(steps, i);
      }
    }
    more := CanFinish(m);
  }

  // ---- The queries ----

  function HasOneRef(m: Machine): bool {
    m.count == 1
  }

  function HasAtLeastOneRef(m: Machine): bool {
    m.count >= 1
  }

  /** has_one_ref answers yes exactly to a caller that holds the only outstanding reference. */
  lemma HasOneRefMeansExclusive(n: nat, steps: seq<Step>, t: nat)
    requires 1 <= n <= MAX_REFCOUNT && Legal(Created(n), steps) && Enabled(After(Created(n), steps), Query(t))
    ensures var m := After(Created(n), steps);
            && HasAtLeastOneRef(m)
            && (HasOneRef(m) <==> Held(m.threads[t]) == 1 && forall u :: 0 <= u < |m.threads| && u != t ==> Held(m.threads[u]) == 0)
  {
    var m := After(Created(n), steps);
    CreatedInv(n);
    RunKeepsInv(Created(n), steps);
    var without := m.threads[t := Thread(0, 0, Idle)];
    SumUpdate(Held, m.threads, t, without[t]);
    SumAtLeast(Held, m.threads, t);
    if HasOneRef(m) {
      forall u | 0 <= u < |m.threads| && u != t ensures Held(m.threads[u]) == 0 {
        SumAtLeast(Held, without, u);
      }
    } else if forall u :: 0 <= u < |m.threads| && u != t ==> Held(m.threads[u]) == 0 {
      SumZero(Held, without);
    }
  }
}
