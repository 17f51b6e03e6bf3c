/** Removing list entries by index, and which indices survive such a removal. */
module EventLists {

  /** The list without the entries at the given indices, order kept. */
  function Without<T>(s: seq<T>, gone: set<nat>): (r: seq<T>)
    ensures |r| <= |s|
    ensures forall x :: x in r ==> x in s
  {
    if s == [] then []
    else Without(s[..|s| - 1], gone) + if |s| - 1 in gone then [] else [s[|s| - 1]]
  }

  ghost predicate Distinct<T>(s: seq<T>) {
    forall i, j :: 0 <= i < j < |s| ==> s[i] != s[j]
  }

  /** Exactly the entries at other indices stay. */
  lemma {:induction false} WithoutKeeps<T>(s: seq<T>, gone: set<nat>, i: nat)
    requires Distinct(s) && i < |s|
    ensures s[i] in Without(s, gone) <==> i !in gone
  {
    var t := s[..|s| - 1];
    if i < |s| - 1 {
      WithoutKeeps(t, gone, i);
      assert s[i] == t[i] && s[i] != s[|s| - 1];
    } else {
      assert s[i] !in t;
    }
  }

  lemma {:induction false} WithoutIsDistinct<T>(s: seq<T>, gone: set<nat>)
    requires Distinct(s)
    ensures Distinct(Without(s, gone))
  {
    if s != [] {
      WithoutIsDistinct(s[..|s| - 1], gone);
      assert s[|s| - 1] !in s[..|s| - 1];
    }
  }

  lemma {:induction false} WithoutNothing<T>(s: seq<T>, gone: set<nat>)
    requires forall i :: 0 <= i < |s| ==> i !in gone
    ensures Without(s, gone) == s
  {
    if s != [] {
      WithoutNothing(s[..|s| - 1], gone);
    }
  }

  /** Entries before all removed indices stay where they are. */
  lemma {:induction false} WithoutPrefix<T>(s: seq<T>, gone: set<nat>, n: nat)
    requires n <= |s| && forall d :: d in gone ==> n <= d
    ensures n <= |Without(s, gone)| && Without(s, gone)[..n] == s[..n]
  {
    if |s| > n {
      WithoutPrefix(s[..|s| - 1], gone, n);
      assert s[..|s| - 1][..n] == s[..n];
    } else {
      WithoutNothing(s, gone);
    }
  }

  /** An entry at or behind a removed index has moved to the front by at least one place. */
  lemma {:induction false} WithoutShifts<T>(s: seq<T>, gone: set<nat>, d: nat)
    requires d in gone && d < |s|
    ensures |Without(s, gone)| < |s|
    ensures forall k :: d <= k < |Without(s, gone)| ==> Without(s, gone)[k] in s[k + 1..]
  {
    var n := |s| - 1;
    var t := s[..n];
    if d < n {
      WithoutShifts(t, gone, d);
      forall k | d <= k < |Without(s, gone)| ensures Without(s, gone)[k] in s[k + 1..] {
        if k < |Without(t, gone)| {
          assert Without(t, gone)[k] in t[k + 1..];
          assert s[k + 1..] == t[k + 1..] + [s[n]];
        } else {
          assert Without(s, gone)[k] == s[n] && s[k + 1..][n - k - 1] == s[n];
        }
      }
    }
  }

  /** The first index of the list that is in gone; the length of the list if none is. */
  function FirstIn(gone: set<nat>, n: nat): (d: nat)
    ensures d <= n && (d < n ==> d in gone) && forall i :: 0 <= i < d ==> i !in gone
  {
    if n == 0 then 0
    else
      var d := FirstIn(gone, n - 1);
      if d < n - 1 || n - 1 in gone then d else n
  }

  // ---- Indices across edits ----

  /**
   A list now and as it once was: entries before intact are where they were, and an
   old entry found behind that has moved to the front.
   */
  ghost predicate Moved<T>(once: seq<T>, now: seq<T>, intact: nat) {
    && intact <= |once| && intact <= |now| && now[..intact] == once[..intact]
    && forall k, j :: intact <= k < |now| && 0 <= j < |once| && now[k] == once[j] ==> k < j
  }

  /** An index names the entry it once named. */
  ghost predicate StillNames<T>(once: seq<T>, now: seq<T>, i: nat)
    requires i < |once|
  {
    i < |now| && now[i] == once[i]
  }

  lemma MovedIff<T>(once: seq<T>, now: seq<T>, intact: nat, i: nat)
    requires Moved(once, now, intact) && i < |once|
    ensures StillNames(once, now, i) <==> i < intact
  {
    if i < intact {
      assert now[i] == now[..intact][i] == once[..intact][i] == once[i];
    }
  }

  lemma NothingMoved<T>(s: seq<T>)
    requires Distinct(s)
    ensures Moved(s, s, |s|)
  {
  }

  lemma MovedAppend<T>(once: seq<T>, now: seq<T>, intact: nat, x: T)
    requires Moved(once, now, intact) && x !in once
    ensures Moved(once, now + [x], intact)
  {
    assert (now + [x])[..intact] == now[..intact];
  }

  /** What stays intact of a list of n entries when a removal takes out the given indices. */
  function IntactAfter(intact: nat, gone: set<nat>, n: nat): nat {
    if FirstIn(gone, n) < intact then FirstIn(gone, n) else intact
  }

  lemma MovedRemove<T>(once: seq<T>, now: seq<T>, intact: nat, gone: set<nat>)
    requires Distinct(once) && Moved(once, now, intact)
    ensures Moved(once, Without(now, gone), IntactAfter(intact, gone, |now|))
  {
    var f, later := FirstIn(gone, |now|), Without(now, gone);
    var intact' := IntactAfter(intact, gone, |now|);
    PrefixStays(now, gone, f);
    assert later[..intact'] == later[..f][..intact'] == now[..f][..intact'] == now[..intact][..intact'] == once[..intact'];
    forall k, j | intact' <= k < |later| && 0 <= j < |once| && later[k] == once[j]
      ensures k < j
    {
      if k < f {
        assert later[k] == later[..f][k] == now[..f][k] == now[k];
      } else {
        WithoutShifts(now, gone, f);
        var k' :| k < k' < |now| && now[k'] == later[k];
        assert k' < intact ==> now[k'] == now[..intact][k'] == once[..intact][k'] == once[k'];
      }
    }
  }

  lemma PrefixStays<T>(s: seq<T>, gone: set<nat>, f: nat)
    requires f == FirstIn(gone, |s|)
    ensures f <= |Without(s, gone)| && Without(s, gone)[..f] == s[..f]
  {
    var inRange := set d | d in gone && d < |s|;
    WithoutSame(s, gone, inRange);
    WithoutPrefix(s, inRange, f);
  }

  /** Indices behind the end of the list take out nothing. */
  lemma {:induction false} WithoutSame<T>(s: seq<T>, a: set<nat>, b: set<nat>)
    requires forall d :: 0 <= d < |s| ==> (d in a <==> d in b)
    ensures Without(s, a) == Without(s, b)
  {
    if s != [] {
      WithoutSame(s[..|s| - 1], a, b);
    }
  }

  datatype Edit<T> = Append(entry: T) | Delete(gone: set<nat>)

  function EditAll<T>(s: seq<T>, edits: seq<Edit<T>>): seq<T>
    decreases |edits|
  {
    if edits == [] then s
    else EditAll(match edits[0] case Append(x) => s + [x] case Delete(gone) => Without(s, gone), edits[1..])
  }

  /** Every removal among the edits takes out only indices behind i, as far as it takes out any. */
  predicate RemovesOnlyBehind<T>(s: seq<T>, edits: seq<Edit<T>>, i: nat)
    decreases |edits|
  {
    edits != [] ==>
      match edits[0]
      case Append(x) => RemovesOnlyBehind(s + [x], edits[1..], i)
      case Delete(gone) => (forall d :: d in gone && d < |s| ==> i < d) && RemovesOnlyBehind(Without(s, gone), edits[1..], i)
  }

  /**
   After any appends of new entries and any removals an index still names its entry
   if and only if no removal took out an index at or before it.
   */
  lemma IndexSurvivesIff<T>(s: seq<T>, edits: seq<Edit<T>>, i: nat)
    requires Distinct(s) && i < |s| && forall e :: e in edits && e.Append? ==> e.entry !in s
    ensures StillNames(s, EditAll(s, edits), i) <==> RemovesOnlyBehind(s, edits, i)
  {
    NothingMoved(s);
    SurvivesIff(s, s, |s|, edits, i);
  }

  lemma {:induction false} SurvivesIff<T>(once: seq<T>, now: seq<T>, intact: nat, edits: seq<Edit<T>>, i: nat)
    requires Distinct(once) && Moved(once, now, intact) && i < |once|
    requires forall e :: e in edits && e.Append? ==> e.entry !in once
    ensures StillNames(once, EditAll(now, edits), i) <==> i < intact && RemovesOnlyBehind(now, edits, i)
    decreases |edits|
  {
    if edits == [] {
      MovedIff(once, now, intact, i);
    } else {
      var later := edits[1..];
      assert forall e :: e in later ==> e in edits;
      match edits[0] {
        case Append(x) =>
          assert edits[0] in edits;
          MovedAppend(once, now, intact, x);
          SurvivesIff(once, now + [x], intact, later, i);
        case Delete(gone) =>
          MovedRemove(once, now, intact, gone);
          SurvivesIff(once, Without(now, gone), IntactAfter(intact, gone, |now|), later, i);
          BehindIff(intact, gone, |now|, i);
      }
    }
  }

  lemma BehindIff(intact: nat, gone: set<nat>, n: nat, i: nat)
    requires intact <= n
    ensures i < IntactAfter(intact, gone, n) <==> i < intact && forall d :: d in gone && d < n ==> i < d
  {
  }
}
