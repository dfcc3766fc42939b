/** The roster reconciliation at the heart of an event merge: the union of two rosters is
    scanned in (member, time in) order and every sign-in that overlaps the sign-in last
    accepted for the same member is folded into it. */
module Roster {
  import opened Wrappers
  import Queries

  /** One member's attendance interval in an event. Times are instants in seconds;
      `timeOut == None` means the member is still signed in. */
  datatype SignIn = SignIn(
    id: int,
    memberId: int,
    eventId: int,
    timeIn: int,
    timeOut: Option<int>,
    miles: Option<int>)

  /** The scan order: by member, then by time in. */
  predicate KeyLe(a: SignIn, b: SignIn) {
    a.memberId < b.memberId || (a.memberId == b.memberId && a.timeIn <= b.timeIn)
  }

  lemma KeyLeTotalPreorder()
    ensures Queries.TotalPreorder(KeyLe)
  {
  }

  /** The combined roster ordered by member, then time in; ties keep their input order. */
  function SortSignIns(xs: seq<SignIn>): (r: seq<SignIn>)
    ensures multiset(r) == multiset(xs)
    ensures Queries.Sorted(r, KeyLe)
    ensures forall y :: Queries.Filter(r, Queries.SameKey(KeyLe, y)) == Queries.Filter(xs, Queries.SameKey(KeyLe, y))
  {
    KeyLeTotalPreorder();
    Queries.SortBySorted(xs, KeyLe);
    assert forall y :: (Queries.Filter(Queries.SortBy(xs, KeyLe), Queries.SameKey(KeyLe, y)) ==
                        Queries.Filter(xs, Queries.SameKey(KeyLe, y))) by {
      forall y ensures Queries.Filter(Queries.SortBy(xs, KeyLe), Queries.SameKey(KeyLe, y)) ==
        Queries.Filter(xs, Queries.SameKey(KeyLe, y))
      {
        Queries.SortByStable(xs, KeyLe, y);
      }
    }
    Queries.SortBy(xs, KeyLe)
  }

  /** Among sign-ins with the same member and time in, the merge scans the source event's
      first, in their order, then the destination's. */
  lemma TiesSourceFirst(fromRoster: seq<SignIn>, intoRoster: seq<SignIn>, y: SignIn)
    ensures Queries.Filter(SortSignIns(fromRoster + intoRoster), Queries.SameKey(KeyLe, y)) ==
      Queries.Filter(fromRoster, Queries.SameKey(KeyLe, y)) + Queries.Filter(intoRoster, Queries.SameKey(KeyLe, y))
  {
    Queries.FilterConcat(fromRoster, intoRoster, Queries.SameKey(KeyLe, y));
  }

  function Ids(xs: seq<SignIn>): set<int> {
    set x | x in xs :: x.id
  }

  /** Sign-in ids are primary keys: no id occurs twice. */
  predicate DistinctIds(xs: seq<SignIn>) {
    forall i, j :: 0 <= i < j < |xs| ==> xs[i].id != xs[j].id
  }

  /** The candidate `s` is folded into `last`: same member, and `last` is still open or
      `s` starts no later than `last` ends (touching intervals merge). */
  predicate Absorbs(last: SignIn, s: SignIn) {
    last.memberId == s.memberId && (last.timeOut.None? || s.timeIn <= last.timeOut.value)
  }

  /** C#'s `a ?? b` on an `int?`. */
  function OrElse(a: Option<int>, b: int): int {
    if a.Some? then a.value else b
  }

  /** C#'s lifted `a + b` with a nullable right operand: null when it is null. */
  function LiftedAdd(a: int, b: Option<int>): Option<int> {
    if b.Some? then Some(a + b.value) else None
  }

  function Max(a: int, b: int): int {
    if a < b then b else a
  }

  /** The miles kept by an absorbing sign-in. The source's `last ?? 0 + cand ?? 0` parses as
      `last ?? ((0 + cand) ?? 0)`: the first non-null value, never a sum. */
  function MilesAfterAbsorb(last: Option<int>, cand: Option<int>): (r: Option<int>)
    ensures r == if last.Some? then last else cand
    ensures r.None? <==> last.None? && cand.None?
  {
    var milesSum := OrElse(last, OrElse(LiftedAdd(0, cand), 0));
    if last.Some? || cand.Some? then Some(milesSum) else None
  }

  /** `last` after the candidate `cand` has been folded into it. */
  function Absorb(last: SignIn, cand: SignIn): (r: SignIn)
    ensures r.id == last.id && r.memberId == last.memberId
    ensures r.eventId == last.eventId && r.timeIn == last.timeIn
    ensures r.timeOut.None? <==> cand.timeOut.None?
    ensures last.timeOut.Some? && cand.timeOut.Some? ==>
      r.timeOut == Some(Max(last.timeOut.value, cand.timeOut.value))
    ensures last.timeOut.None? ==> r.timeOut == cand.timeOut
    ensures r.miles == if last.miles.Some? then last.miles else cand.miles
  {
    var timeOut :=
      if cand.timeOut.None? || last.timeOut.None? || cand.timeOut.value > last.timeOut.value
      then cand.timeOut
      else last.timeOut;
    last.(timeOut := timeOut, miles := MilesAfterAbsorb(last.miles, cand.miles))
  }

  /** One iteration of the scan: `acc` holds the sign-ins accepted so far, its last element
      being the one last accepted. */
  function Step(acc: seq<SignIn>, s: SignIn): seq<SignIn> {
    if acc != [] && Absorbs(acc[|acc| - 1], s) then acc[..|acc| - 1] + [Absorb(acc[|acc| - 1], s)]
    else acc + [s]
  }

  /** A step changes at most the last accepted sign-in: it either appends the visited sign-in
      unchanged, or, exactly when the last accepted one absorbs it, keeps the length. Either
      way the last accepted sign-in is now for the visited member. */
  lemma StepShape(acc: seq<SignIn>, s: SignIn)
    ensures var r := Step(acc, s);
      && (|r| == |acc| || |r| == |acc| + 1)
      && (|r| == |acc| <==> acc != [] && Absorbs(acc[|acc| - 1], s))
      && r[|r| - 1].memberId == s.memberId
      && (forall k :: 0 <= k < |acc| - 1 ==> r[k] == acc[k])
      && (|r| == |acc| + 1 ==> r[..|acc|] == acc && r[|acc|] == s)
  {
  }

  /** The sign-ins that survive a scan of `xs`, with the time out and miles they end with. */
  function Coalesce(xs: seq<SignIn>): (r: seq<SignIn>)
    ensures |r| <= |xs|
    ensures xs != [] ==> r != []
    decreases |xs|
  {
    if xs == [] then [] else Step(Coalesce(xs[..|xs| - 1]), xs[|xs| - 1])
  }

  /** The sign-in last accepted once the scan has visited `xs`. */
  function Accepted(xs: seq<SignIn>): (a: SignIn)
    requires xs != []
    ensures a in Coalesce(xs)
    ensures a.memberId == xs[|xs| - 1].memberId
  {
    var acc := Coalesce(xs);
    acc[|acc| - 1]
  }

  /** The reconciled roster of a merge: both rosters, ordered and scanned. */
  function MergedRoster(fromRoster: seq<SignIn>, intoRoster: seq<SignIn>): (r: seq<SignIn>)
    ensures |r| <= |fromRoster| + |intoRoster|
    ensures r == [] <==> fromRoster == [] && intoRoster == []
  {
    assert |SortSignIns(fromRoster + intoRoster)| == |fromRoster + intoRoster| by {
      assert |multiset(SortSignIns(fromRoster + intoRoster))| == |multiset(fromRoster + intoRoster)|;
    }
    Coalesce(SortSignIns(fromRoster + intoRoster))
  }

  /** Consecutive sign-ins of one member are disjoint: the earlier one has ended, strictly
      before the later one begins. */
  predicate Settled(xs: seq<SignIn>) {
    forall i :: 0 < i < |xs| && xs[i - 1].memberId == xs[i].memberId ==>
      xs[i - 1].timeOut.Some? && xs[i - 1].timeOut.value < xs[i].timeIn
  }

  lemma ScanStep(xs: seq<SignIn>, i: nat)
    requires i < |xs|
    ensures Coalesce(xs[..i + 1]) == Step(Coalesce(xs[..i]), xs[i])
  {
    assert xs[..i + 1][..i] == xs[..i];
  }

  /** The ids of a non-empty list are those of its prefix and of its last element; with
      distinct ids, the last one does not occur in the prefix. */
  lemma SplitLast(xs: seq<SignIn>)
    requires xs != []
    ensures Ids(xs) == Ids(xs[..|xs| - 1]) + {xs[|xs| - 1].id}
    ensures DistinctIds(xs) ==> DistinctIds(xs[..|xs| - 1])
    ensures DistinctIds(xs) ==> xs[|xs| - 1].id !in Ids(xs[..|xs| - 1])
  {
    var p, s := xs[..|xs| - 1], xs[|xs| - 1];
    assert xs == p + [s];
    if DistinctIds(xs) {
      forall x | x in p ensures x.id != s.id {
        var k :| 0 <= k < |p| && p[k] == x;
        assert xs[k].id != xs[|xs| - 1].id;
      }
    }
  }

  /** A step keeps every accepted id and adds at most the candidate's. */
  lemma StepIds(acc: seq<SignIn>, s: SignIn)
    ensures Ids(acc) <= Ids(Step(acc, s)) <= Ids(acc) + {s.id}
    ensures acc != [] && Absorbs(acc[|acc| - 1], s) ==> Ids(Step(acc, s)) == Ids(acc)
  {
    var r := Step(acc, s);
    if acc != [] && Absorbs(acc[|acc| - 1], s) {
      var m := |acc| - 1;
      forall y | y in Ids(acc) ensures y in Ids(r) {
        var x :| x in acc && x.id == y;
        var i :| 0 <= i < |acc| && acc[i] == x;
        assert r[i].id == y;
      }
      forall y | y in Ids(r) ensures y in Ids(acc) {
        var x :| x in r && x.id == y;
        var i :| 0 <= i < |r| && r[i] == x;
        assert acc[i].id == y;
      }
    } else {
      assert r == acc + [s];
    }
  }

  /** A step keeps ids distinct when the candidate's id is new. */
  lemma StepDistinct(acc: seq<SignIn>, s: SignIn)
    requires DistinctIds(acc) && s.id !in Ids(acc)
    ensures DistinctIds(Step(acc, s))
  {
    var r := Step(acc, s);
    if acc != [] && Absorbs(acc[|acc| - 1], s) {
      forall i, j | 0 <= i < j < |r| ensures r[i].id != r[j].id {
        assert r[i].id == acc[i].id && r[j].id == acc[j].id;
      }
    } else {
      forall i, j | 0 <= i < j < |r| ensures r[i].id != r[j].id {
        if j == |acc| {
          assert acc[i] in acc;
        } else {
          assert r[i] == acc[i] && r[j] == acc[j];
        }
      }
    }
  }

  lemma {:induction false} CoalesceIds(xs: seq<SignIn>)
    ensures Ids(Coalesce(xs)) <= Ids(xs)
    ensures DistinctIds(xs) ==> DistinctIds(Coalesce(xs))
    decreases |xs|
  {
    if xs != [] {
      var p, s := xs[..|xs| - 1], xs[|xs| - 1];
      SplitLast(xs);
      CoalesceIds(p);
      StepIds(Coalesce(p), s);
      if DistinctIds(xs) {
        StepDistinct(Coalesce(p), s);
      }
    }
  }

  lemma StepSettled(acc: seq<SignIn>, s: SignIn)
    requires Settled(acc)
    ensures Settled(Step(acc, s))
  {
    if acc != [] && Absorbs(acc[|acc| - 1], s) {
      var m := |acc| - 1;
      var r := acc[..m] + [Absorb(acc[m], s)];
      forall i | 0 < i < |r| && r[i - 1].memberId == r[i].memberId
        ensures r[i - 1].timeOut.Some? && r[i - 1].timeOut.value < r[i].timeIn
      {
        assert r[i - 1] == acc[i - 1];
        assert r[i].memberId == acc[i].memberId && r[i].timeIn == acc[i].timeIn;
      }
    } else {
      var r := acc + [s];
      forall i | 0 < i < |r| && r[i - 1].memberId == r[i].memberId
        ensures r[i - 1].timeOut.Some? && r[i - 1].timeOut.value < r[i].timeIn
      {
        assert r[i - 1] == acc[i - 1];
        if i < |acc| { assert r[i] == acc[i]; }
      }
    }
  }

  /** After any scan, consecutive accepted sign-ins of one member are disjoint. */
  lemma {:induction false} CoalesceSettled(xs: seq<SignIn>)
    ensures Settled(Coalesce(xs))
    decreases |xs|
  {
    if xs != [] {
      var p := xs[..|xs| - 1];
      CoalesceSettled(p);
      StepSettled(Coalesce(p), xs[|xs| - 1]);
    }
  }

  /** Every sign-in of `xs` is at most `z` in the scan order. */
  predicate AllLe(xs: seq<SignIn>, z: SignIn) {
    forall k :: 0 <= k < |xs| ==> KeyLe(xs[k], z)
  }

  lemma StepBounded(acc: seq<SignIn>, s: SignIn, z: SignIn)
    requires AllLe(acc, z) && KeyLe(s, z)
    ensures AllLe(Step(acc, s), z)
  {
    var r := Step(acc, s);
    if acc != [] && Absorbs(acc[|acc| - 1], s) {
      var m := |acc| - 1;
      forall k | 0 <= k < |r| ensures KeyLe(r[k], z) {
        if k < m { assert r[k] == acc[k]; } else { assert KeyLe(acc[m], z); }
      }
    } else {
      forall k | 0 <= k < |r| ensures KeyLe(r[k], z) {
        if k < |acc| { assert r[k] == acc[k]; }
      }
    }
  }

  /** The survivors never exceed a key bound that every scanned sign-in respects. */
  lemma {:induction false} CoalesceBounded(xs: seq<SignIn>, z: SignIn)
    requires AllLe(xs, z)
    ensures AllLe(Coalesce(xs), z)
    decreases |xs|
  {
    if xs != [] {
      var p, s := xs[..|xs| - 1], xs[|xs| - 1];
      assert AllLe(p, z) by {
        forall k | 0 <= k < |p| ensures KeyLe(p[k], z) { assert p[k] == xs[k]; }
      }
      CoalesceBounded(p, z);
      StepBounded(Coalesce(p), s, z);
    }
  }

  lemma StepSorted(acc: seq<SignIn>, s: SignIn)
    requires Queries.Sorted(acc, KeyLe) && AllLe(acc, s)
    ensures Queries.Sorted(Step(acc, s), KeyLe)
  {
    var r := Step(acc, s);
    if acc != [] && Absorbs(acc[|acc| - 1], s) {
      forall i, j | 0 <= i < j < |r| ensures KeyLe(r[i], r[j]) {
        assert KeyLe(acc[i], acc[j]);
      }
    } else {
      forall i, j | 0 <= i < j < |r| ensures KeyLe(r[i], r[j]) {
        assert r[i] == acc[i];
        if j < |acc| {
          assert KeyLe(acc[i], acc[j]);
        }
      }
    }
  }

  /** Scanning a list ordered by (member, time in) yields a list in the same order. */
  lemma {:induction false} CoalesceSorted(xs: seq<SignIn>)
    requires Queries.Sorted(xs, KeyLe)
    ensures Queries.Sorted(Coalesce(xs), KeyLe)
    decreases |xs|
  {
    if xs != [] {
      var p, s := xs[..|xs| - 1], xs[|xs| - 1];
      assert Queries.Sorted(p, KeyLe);
      assert AllLe(p, s);
      CoalesceSorted(p);
      CoalesceBounded(p, s);
      StepSorted(Coalesce(p), s);
    }
  }

  /** A sign-in, once accepted, stays among the survivors: no step drops an id. */
  lemma {:induction false} CoalesceIdsGrow(xs: seq<SignIn>, m: nat)
    requires m <= |xs|
    ensures Ids(Coalesce(xs[..m])) <= Ids(Coalesce(xs))
    decreases |xs|
  {
    if m == |xs| {
      assert xs[..m] == xs;
    } else {
      var p := xs[..|xs| - 1];
      assert p[..m] == xs[..m];
      CoalesceIdsGrow(p, m);
      StepIds(Coalesce(p), xs[|xs| - 1]);
    }
  }

  /** Every survivor of a scan of `xs` was accepted by the time the prefix `xs[..m]` was
      scanned, or is a sign-in of the rest. */
  lemma {:induction false} CoalesceIdsFrom(xs: seq<SignIn>, m: nat)
    requires m <= |xs|
    ensures Ids(Coalesce(xs)) <= Ids(Coalesce(xs[..m])) + Ids(xs[m..])
    decreases |xs|
  {
    if m == |xs| {
      assert xs[..m] == xs;
    } else {
      var p, s := xs[..|xs| - 1], xs[|xs| - 1];
      assert p[..m] == xs[..m];
      CoalesceIdsFrom(p, m);
      assert xs[m..] == p[m..] + [s];
      SplitLast(xs[m..]);
      assert xs[m..][..|xs[m..]| - 1] == p[m..];
      StepIds(Coalesce(p), s);
    }
  }

  /** A sign-in of the scan survives exactly when it is not absorbed by the sign-in last
      accepted before it: the first sign-in always survives, and a later one survives exactly
      when the last accepted one is for another member, or has ended strictly before it begins. */
  lemma SurvivesIff(xs: seq<SignIn>, j: nat)
    requires DistinctIds(xs) && j < |xs|
    ensures j == 0 ==> xs[j].id in Ids(Coalesce(xs))
    ensures j > 0 ==> (xs[j].id in Ids(Coalesce(xs)) <==>
      Accepted(xs[..j]).memberId != xs[j].memberId ||
      (Accepted(xs[..j]).timeOut.Some? && xs[j].timeIn > Accepted(xs[..j]).timeOut.value))
  {
    if j > 0 && Absorbs(Accepted(xs[..j]), xs[j]) {
      AbsorbedIsDropped(xs, j);
    } else {
      AcceptedIsKept(xs, j);
    }
  }

  lemma AcceptedIsKept(xs: seq<SignIn>, j: nat)
    requires j < |xs|
    requires j == 0 || !Absorbs(Accepted(xs[..j]), xs[j])
    ensures xs[j].id in Ids(Coalesce(xs))
  {
    ScanStep(xs, j);
    CoalesceIdsGrow(xs, j + 1);
    var acc := Coalesce(xs[..j]);
    assert Coalesce(xs[..j + 1]) == acc + [xs[j]];
    assert xs[j] in acc + [xs[j]];
  }

  lemma AbsorbedIsDropped(xs: seq<SignIn>, j: nat)
    requires DistinctIds(xs) && 0 < j < |xs|
    requires Absorbs(Accepted(xs[..j]), xs[j])
    ensures xs[j].id !in Ids(Coalesce(xs))
  {
    var s := xs[j];
    ScanStep(xs, j);
    var acc := Coalesce(xs[..j]);
    StepIds(acc, s);
    CoalesceIdsFrom(xs, j + 1);
    CoalesceIds(xs[..j]);
    IdElsewhere(xs, j);
  }

  /** With distinct ids, the id at `j` occurs neither before nor after `j`. */
  lemma IdElsewhere(xs: seq<SignIn>, j: nat)
    requires DistinctIds(xs) && j < |xs|
    ensures xs[j].id !in Ids(xs[..j]) && xs[j].id !in Ids(xs[j + 1..])
  {
    forall x | x in xs[..j] ensures x.id != xs[j].id {
      var i :| 0 <= i < j && xs[..j][i] == x;
      assert xs[i].id != xs[j].id;
    }
    forall x | x in xs[j + 1..] ensures x.id != xs[j].id {
      var i :| 0 <= i < |xs| - j - 1 && xs[j + 1..][i] == x;
      assert xs[j + 1 + i].id != xs[j].id;
    }
  }

  /** The first sign-in of each member in the scan order always survives. */
  lemma FirstOfMemberSurvives(xs: seq<SignIn>, j: nat)
    requires DistinctIds(xs) && j < |xs|
    requires j == 0 || xs[j - 1].memberId != xs[j].memberId
    ensures xs[j].id in Ids(Coalesce(xs))
  {
    SurvivesIff(xs, j);
  }

  /** A roster whose consecutive same-member sign-ins are already disjoint passes the scan
      unchanged. */
  lemma {:induction false} SettledFixpoint(xs: seq<SignIn>)
    requires Settled(xs)
    ensures Coalesce(xs) == xs
    decreases |xs|
  {
    if xs != [] {
      var p, s := xs[..|xs| - 1], xs[|xs| - 1];
      assert Settled(p) by {
        forall i | 0 < i < |p| && p[i - 1].memberId == p[i].memberId
          ensures p[i - 1].timeOut.Some? && p[i - 1].timeOut.value < p[i].timeIn
        {
          assert p[i - 1] == xs[i - 1] && p[i] == xs[i];
        }
      }
      SettledFixpoint(p);
      if p != [] {
        assert p[|p| - 1] == xs[|xs| - 2];
        assert !Absorbs(p[|p| - 1], s);
      }
      assert p + [s] == xs;
    }
  }

  /** Reconciling an already reconciled roster changes nothing. */
  lemma CoalesceIdempotent(xs: seq<SignIn>)
    ensures Coalesce(Coalesce(xs)) == Coalesce(xs)
  {
    CoalesceSettled(xs);
    SettledFixpoint(Coalesce(xs));
  }

  /** Merging an empty roster into an ordered, reconciled one leaves it unchanged. */
  lemma MergeEmptyIsIdentity(intoRoster: seq<SignIn>)
    requires Queries.Sorted(intoRoster, KeyLe) && Settled(intoRoster)
    ensures MergedRoster([], intoRoster) == intoRoster
  {
    assert [] + intoRoster == intoRoster;
    Queries.SortByFixpoint(intoRoster, KeyLe);
    SettledFixpoint(intoRoster);
  }

  /** Every sign-in that has ended ended no earlier than it began. */
  predicate WellTimed(xs: seq<SignIn>) {
    forall x :: x in xs && x.timeOut.Some? ==> x.timeIn <= x.timeOut.value
  }

  /** In an ordered, reconciled roster of well-timed sign-ins, an earlier sign-in of a
      member has ended strictly before any later one of the same member begins. */
  lemma {:induction false} SettledApart(c: seq<SignIn>, p: nat, q: nat)
    requires Queries.Sorted(c, KeyLe) && Settled(c) && WellTimed(c)
    requires p < q < |c| && c[p].memberId == c[q].memberId
    ensures c[p].timeOut.Some? && c[p].timeOut.value < c[q].timeIn
    decreases q - p
  {
    if p + 1 < q {
      assert KeyLe(c[p], c[p + 1]) && KeyLe(c[p + 1], c[q]);
      SettledApart(c, p + 1, q);
      assert c[p + 1] in c;
    }
  }

  /** Ordering the records of a reconciled, well-timed roster afresh, whatever order they
      are held in, gives a reconciled roster again. */
  lemma RemergeSettled(r: seq<SignIn>, c: seq<SignIn>)
    requires DistinctIds(r) && WellTimed(r)
    requires Queries.Sorted(c, KeyLe) && Settled(c)
    requires forall x :: x in r <==> x in c
    ensures Settled(SortSignIns(r))
  {
    var t := SortSignIns(r);
    AllDistinct(r, t);
    assert WellTimed(c);
    forall k | 0 < k < |t| && t[k - 1].memberId == t[k].memberId
      ensures t[k - 1].timeOut.Some? && t[k - 1].timeOut.value < t[k].timeIn
    {
      assert t[k - 1] in multiset(t) && t[k] in multiset(t);
      assert KeyLe(t[k - 1], t[k]) && t[k - 1].id != t[k].id;
      ApartInOrder(c, t[k - 1], t[k]);
    }
  }

  /** Two different sign-ins of one member in an ordered, reconciled, well-timed roster: the
      one that begins no later has ended before the other begins. */
  lemma ApartInOrder(c: seq<SignIn>, a: SignIn, b: SignIn)
    requires Queries.Sorted(c, KeyLe) && Settled(c) && WellTimed(c)
    requires a in c && b in c && a != b && a.memberId == b.memberId && a.timeIn <= b.timeIn
    ensures a.timeOut.Some? && a.timeOut.value < b.timeIn
  {
    var p :| 0 <= p < |c| && c[p] == a;
    var q :| 0 <= q < |c| && c[q] == b;
    if q < p {
      SettledApart(c, q, p);
      assert false;
    }
    SettledApart(c, p, q);
  }

  /** Merging an empty roster into a reconciled one keeps exactly its records, whatever
      order they are held in. */
  lemma RemergeEmpty(r: seq<SignIn>, c: seq<SignIn>)
    requires DistinctIds(r) && WellTimed(r)
    requires Queries.Sorted(c, KeyLe) && Settled(c)
    requires forall x :: x in r <==> x in c
    ensures forall x :: x in MergedRoster([], r) <==> x in r
  {
    assert [] + r == r;
    var t := SortSignIns(r);
    RemergeSettled(r, c);
    SettledFixpoint(t);
    forall x ensures x in t <==> x in r {
      assert x in t <==> x in multiset(t);
      assert x in r <==> x in multiset(r);
    }
  }

  /** The merged roster is in scan order and reconciled. */
  lemma MergedRosterOrdered(fromRoster: seq<SignIn>, intoRoster: seq<SignIn>)
    ensures Queries.Sorted(MergedRoster(fromRoster, intoRoster), KeyLe)
    ensures Settled(MergedRoster(fromRoster, intoRoster))
  {
    var all := SortSignIns(fromRoster + intoRoster);
    CoalesceSorted(all);
    CoalesceSettled(all);
  }

  /** The members with a sign-in in `xs`. */
  function Members(xs: seq<SignIn>): set<int> {
    set x | x in xs :: x.memberId
  }

  lemma StepMembers(acc: seq<SignIn>, s: SignIn)
    ensures Members(Step(acc, s)) == Members(acc) + {s.memberId}
  {
    var r := Step(acc, s);
    if acc != [] && Absorbs(acc[|acc| - 1], s) {
      var m := |acc| - 1;
      assert acc == acc[..m] + [acc[m]];
      assert r == acc[..m] + [Absorb(acc[m], s)];
      forall y ensures y in Members(r) <==> y in Members(acc) {
        if y in Members(acc) {
          var x :| x in acc && x.memberId == y;
          if x in acc[..m] { assert x in r; } else { assert r[m].memberId == y; }
        }
        if y in Members(r) {
          var x :| x in r && x.memberId == y;
          if x in acc[..m] { assert x in acc; } else { assert acc[m] in acc; }
        }
      }
    } else {
      assert r == acc + [s];
    }
  }

  /** The scan loses no member: everyone with a sign-in keeps at least one. */
  lemma {:induction false} CoalesceMembers(xs: seq<SignIn>)
    ensures Members(Coalesce(xs)) == Members(xs)
    decreases |xs|
  {
    if xs != [] {
      var p, s := xs[..|xs| - 1], xs[|xs| - 1];
      assert xs == p + [s];
      CoalesceMembers(p);
      StepMembers(Coalesce(p), s);
    }
  }

  /** A merge keeps every member who signed in to either event, and adds no one. */
  lemma MergedRosterMembers(fromRoster: seq<SignIn>, intoRoster: seq<SignIn>)
    ensures Members(MergedRoster(fromRoster, intoRoster)) == Members(fromRoster) + Members(intoRoster)
  {
    var both := fromRoster + intoRoster;
    var all := SortSignIns(both);
    CoalesceMembers(all);
    forall y ensures y in Members(all) <==> y in Members(both) {
      if y in Members(all) {
        var x :| x in all && x.memberId == y;
        assert x in multiset(both);
      }
      if y in Members(both) {
        var x :| x in both && x.memberId == y;
        assert x in multiset(all);
      }
    }
  }

  /** Every sign-in a merge keeps comes from one of the two rosters. */
  lemma MergedRosterIds(fromRoster: seq<SignIn>, intoRoster: seq<SignIn>)
    ensures Ids(MergedRoster(fromRoster, intoRoster)) <= Ids(fromRoster) + Ids(intoRoster)
  {
    var both := fromRoster + intoRoster;
    var all := SortSignIns(both);
    CoalesceIds(all);
    forall y | y in Ids(all) ensures y in Ids(fromRoster) + Ids(intoRoster) {
      var x :| x in all && x.id == y;
      assert x in multiset(both);
      if x in fromRoster { assert y in Ids(fromRoster); } else { assert y in Ids(intoRoster); }
    }
  }

  /** Two rosters with distinct ids and no id in common form one roster with distinct ids. */
  lemma DistinctConcat(xs: seq<SignIn>, ys: seq<SignIn>)
    requires DistinctIds(xs) && DistinctIds(ys) && Ids(xs) !! Ids(ys)
    ensures DistinctIds(xs + ys)
  {
    var r := xs + ys;
    forall i, j | 0 <= i < j < |r| ensures r[i].id != r[j].id {
      if i < |xs| && |xs| <= j {
        assert r[i] in xs && r[j] in ys;
        assert r[i].id in Ids(xs) && r[j].id in Ids(ys);
      } else if j < |xs| {
        assert r[i] == xs[i] && r[j] == xs[j];
      } else {
        assert r[i] == ys[i - |xs|] && r[j] == ys[j - |xs|];
      }
    }
  }

  /** The destination roster without the sign-in with this id (`ICollection.Remove`). */
  function WithoutId(r: seq<SignIn>, id: int): (o: seq<SignIn>)
    ensures forall x :: x in o <==> x in r && x.id != id
    ensures DistinctIds(r) ==> DistinctIds(o)
    ensures Ids(o) <= Ids(r)
  {
    if r == [] then []
    else if r[0].id == id then WithoutId(r[1..], id)
    else
      var rest := WithoutId(r[1..], id);
      assert r == [r[0]] + r[1..];
      assert DistinctIds(r) ==> r[0].id !in Ids(rest) by {
        if DistinctIds(r) {
          forall x | x in rest ensures x.id != r[0].id {
            var i :| 1 <= i < |r| && r[i] == x;
          }
        }
      }
      [r[0]] + rest
  }

  /** The destination roster with the record of `v`'s sign-in replaced by `v`: the value model of
      updating the carried sign-in in place. */
  function ReplaceById(r: seq<SignIn>, v: SignIn): seq<SignIn> {
    seq(|r|, k requires 0 <= k < |r| => if r[k].id == v.id then v else r[k])
  }

  lemma ReplaceByIdMembers(r: seq<SignIn>, v: SignIn)
    requires DistinctIds(r) && v.id in Ids(r)
    ensures forall x :: x in ReplaceById(r, v) <==> (x in r && x.id != v.id) || x == v
    ensures DistinctIds(ReplaceById(r, v))
    ensures Ids(ReplaceById(r, v)) == Ids(r)
  {
    ReplaceByIdContents(r, v);
    ReplaceByIdIds(r, v);
  }

  lemma ReplaceByIdContents(r: seq<SignIn>, v: SignIn)
    requires v.id in Ids(r)
    ensures forall x :: x in ReplaceById(r, v) <==> (x in r && x.id != v.id) || x == v
  {
    var o := ReplaceById(r, v);
    var x0 :| x0 in r && x0.id == v.id;
    var k0 :| 0 <= k0 < |r| && r[k0] == x0;
    assert o[k0] == v;
    forall x ensures x in o <==> (x in r && x.id != v.id) || x == v {
      if x in r && x.id != v.id {
        var k :| 0 <= k < |r| && r[k] == x;
        assert o[k] == x;
      }
    }
  }

  lemma ReplaceByIdIds(r: seq<SignIn>, v: SignIn)
    requires DistinctIds(r)
    ensures DistinctIds(ReplaceById(r, v))
    ensures Ids(ReplaceById(r, v)) == Ids(r)
  {
    var o := ReplaceById(r, v);
    assert forall k :: 0 <= k < |r| ==> o[k].id == r[k].id;
    forall y ensures y in Ids(o) <==> y in Ids(r) {
      if y in Ids(r) {
        var x :| x in r && x.id == y;
        var k :| 0 <= k < |r| && r[k] == x;
        assert o[k].id == y;
      }
      if y in Ids(o) {
        var x :| x in o && x.id == y;
        var k :| 0 <= k < |o| && o[k] == x;
        assert r[k].id == y;
      }
    }
  }

  /** The scan of the source, on values: `roster` is the destination's collection, `last` the
      carried sign-in. Absorbed destination sign-ins are removed, surviving source sign-ins are
      added, and the absorbing sign-in's record is updated. The result holds exactly the
      survivors of the scan, each once. */
  method MergeRosters(fromRoster: seq<SignIn>, intoRoster: seq<SignIn>, intoId: int)
    returns (roster: seq<SignIn>)
    requires DistinctIds(fromRoster + intoRoster)
    requires forall x :: x in fromRoster ==> x.eventId != intoId
    requires forall x :: x in intoRoster ==> x.eventId == intoId
    ensures DistinctIds(roster)
    ensures forall x :: x in roster <==> x in MergedRoster(fromRoster, intoRoster)
    ensures Ids(roster) == Ids(MergedRoster(fromRoster, intoRoster))
  {
    var all := SortSignIns(fromRoster + intoRoster);
    ScanStart(fromRoster, intoRoster, intoId, all);
    roster := intoRoster;
    var last: Option<SignIn> := None;
    ghost var acc: seq<SignIn> := [];
    for i := 0 to |all|
      invariant Scanned(all, i, acc, last, roster, intoId)
    {
      var s := all[i];
      ScanIteration(all, i, acc, last, roster, intoId);
      var absorbed := false;
      if last.Some? && last.value.memberId == s.memberId {
        if last.value.timeOut.None? || s.timeIn <= last.value.timeOut.value {
          var merged := Absorb(last.value, s);
          roster := ReplaceById(roster, merged);
          if s.eventId == intoId {
            roster := WithoutId(roster, s.id);
          }
          last := Some(merged);
          absorbed := true;
        }
      }
      if !absorbed {
        if s.eventId != intoId {
          roster := roster + [s];
        }
        last := Some(s);
      }
      acc := Step(acc, s);
    }
    ScanEnd(all, acc, intoId, roster);
  }

  /** The loop invariant of `MergeRosters` after `i` sign-ins: `acc` is what the scan has
      accepted, `last` its last element, and the destination holds what `Holds` says. */
  ghost predicate Scanned(all: seq<SignIn>, i: nat, acc: seq<SignIn>, last: Option<SignIn>,
                          roster: seq<SignIn>, intoId: int) {
    && i <= |all|
    && DistinctIds(all)
    && acc == Coalesce(all[..i])
    && DistinctIds(acc) && Ids(acc) <= Ids(all[..i])
    && (last.None? <==> acc == [])
    && (acc != [] ==> last == Some(acc[|acc| - 1]))
    && Holds(roster, acc, all[i..], intoId)
  }

  /** One iteration of the loop in `MergeRosters` keeps its invariant, in both branches. */
  lemma ScanIteration(all: seq<SignIn>, i: nat, acc: seq<SignIn>, last: Option<SignIn>,
                      roster: seq<SignIn>, intoId: int)
    requires Scanned(all, i, acc, last, roster, intoId) && i < |all|
    ensures var s := all[i];
      if last.Some? && Absorbs(last.value, s) then
        var merged := Absorb(last.value, s);
        var replaced := ReplaceById(roster, merged);
        Scanned(all, i + 1, Step(acc, s), Some(merged),
                if s.eventId == intoId then WithoutId(replaced, s.id) else replaced, intoId)
      else
        Scanned(all, i + 1, Step(acc, s), Some(s),
                if s.eventId != intoId then roster + [s] else roster, intoId)
  {
    if last.Some? && Absorbs(last.value, all[i]) {
      ScanAbsorbs(all, i, acc, last.value, roster, intoId);
    } else {
      ScanKeeps(all, i, acc, last, roster, intoId);
    }
  }

  lemma ScanAbsorbs(all: seq<SignIn>, i: nat, acc: seq<SignIn>, last: SignIn,
                    roster: seq<SignIn>, intoId: int)
    requires Scanned(all, i, acc, Some(last), roster, intoId) && i < |all|
    requires Absorbs(last, all[i])
    ensures var s := all[i];
      var merged := Absorb(last, s);
      var replaced := ReplaceById(roster, merged);
      Scanned(all, i + 1, Step(acc, s), Some(merged),
              if s.eventId == intoId then WithoutId(replaced, s.id) else replaced, intoId)
  {
    var s := all[i];
    var rest := all[i + 1..];
    PendingFacts(all, i, acc);
    assert all[i..] == [s] + rest;
    ScanAccepted(all, i, acc);
    AbsorbedMembers(acc, s, rest, roster, intoId);
  }

  lemma ScanKeeps(all: seq<SignIn>, i: nat, acc: seq<SignIn>, last: Option<SignIn>,
                  roster: seq<SignIn>, intoId: int)
    requires Scanned(all, i, acc, last, roster, intoId) && i < |all|
    requires !(last.Some? && Absorbs(last.value, all[i]))
    ensures var s := all[i];
      Scanned(all, i + 1, Step(acc, s), Some(s),
              if s.eventId != intoId then roster + [s] else roster, intoId)
  {
    var s := all[i];
    var rest := all[i + 1..];
    PendingFacts(all, i, acc);
    assert all[i..] == [s] + rest;
    ScanAccepted(all, i, acc);
    AcceptedMembers(acc, s, rest, roster, intoId);
  }

  /** What the scan has accepted after one more sign-in keeps distinct ids drawn from the
      visited ones. */
  lemma ScanAccepted(all: seq<SignIn>, i: nat, acc: seq<SignIn>)
    requires DistinctIds(all) && i < |all|
    requires acc == Coalesce(all[..i]) && DistinctIds(acc) && Ids(acc) <= Ids(all[..i])
    requires all[i].id !in Ids(acc)
    ensures Step(acc, all[i]) == Coalesce(all[..i + 1])
    ensures DistinctIds(Step(acc, all[i])) && Ids(Step(acc, all[i])) <= Ids(all[..i + 1])
  {
    ScanStep(all, i);
    StepIds(acc, all[i]);
    StepDistinct(acc, all[i]);
    assert all[..i + 1][..i] == all[..i];
    SplitLast(all[..i + 1]);
  }

  /** The state of the scan: the destination holds, each once, the sign-ins accepted so far
      (`acc`) and the destination's own sign-ins not yet visited (`pending`). */
  ghost predicate Holds(roster: seq<SignIn>, acc: seq<SignIn>, pending: seq<SignIn>, intoId: int) {
    && DistinctIds(roster)
    && forall x :: x in roster <==> x in acc || (x in pending && x.eventId == intoId)
  }

  lemma ScanStart(fromRoster: seq<SignIn>, intoRoster: seq<SignIn>, intoId: int, all: seq<SignIn>)
    requires DistinctIds(fromRoster + intoRoster)
    requires forall x :: x in fromRoster ==> x.eventId != intoId
    requires forall x :: x in intoRoster ==> x.eventId == intoId
    requires multiset(all) == multiset(fromRoster + intoRoster)
    ensures Scanned(all, 0, [], None, intoRoster, intoId)
  {
    forall x ensures x in all <==> x in fromRoster + intoRoster {
      assert x in all <==> x in multiset(all);
    }
    AllDistinct(fromRoster + intoRoster, all);
    assert all[0..] == all;
    assert all[..0] == [];
    var both := fromRoster + intoRoster;
    forall i, j | 0 <= i < j < |intoRoster| ensures intoRoster[i].id != intoRoster[j].id {
      assert both[|fromRoster| + i] == intoRoster[i] && both[|fromRoster| + j] == intoRoster[j];
    }
  }

  lemma ScanEnd(all: seq<SignIn>, acc: seq<SignIn>, intoId: int, roster: seq<SignIn>)
    requires acc == Coalesce(all[..|all|]) && Holds(roster, acc, all[|all|..], intoId)
    ensures DistinctIds(roster)
    ensures forall x :: x in roster <==> x in Coalesce(all)
    ensures Ids(roster) == Ids(Coalesce(all))
  {
    assert all[..|all|] == all;
    forall y ensures y in Ids(roster) <==> y in Ids(acc) {
      if y in Ids(roster) {
        var x :| x in roster && x.id == y;
      }
      if y in Ids(acc) {
        var x :| x in acc && x.id == y;
      }
    }
  }

  /** With ids distinct, the visited sign-in and the ones after it have ids that were not
      accepted before. */
  lemma PendingFacts(all: seq<SignIn>, i: nat, acc: seq<SignIn>)
    requires DistinctIds(all) && i < |all| && Ids(acc) <= Ids(all[..i])
    ensures all[i].id !in Ids(acc)
    ensures forall x :: x in all[i + 1..] ==> x.id != all[i].id && x.id !in Ids(acc)
  {
    forall x | x in all[..i] ensures x.id != all[i].id {
      var k :| 0 <= k < i && all[..i][k] == x;
      assert all[k].id != all[i].id;
    }
    forall x | x in all[i + 1..] ensures x.id != all[i].id && x.id !in Ids(all[..i]) {
      var k :| i + 1 <= k < |all| && all[k] == x;
      assert all[k].id != all[i].id;
      forall y | y in all[..i] ensures y.id != x.id {
        var p :| 0 <= p < i && all[p] == y;
        assert all[p].id != all[k].id;
      }
    }
  }

  /** The loop body when the visited sign-in `s` is absorbed by the carried one. */
  lemma AbsorbedMembers(acc: seq<SignIn>, s: SignIn, rest: seq<SignIn>, roster: seq<SignIn>, intoId: int)
    requires acc != [] && DistinctIds(acc)
    requires s.id !in Ids(acc)
    requires forall x :: x in rest ==> x.id != s.id && x.id !in Ids(acc)
    requires Holds(roster, acc, [s] + rest, intoId)
    ensures var merged := Absorb(acc[|acc| - 1], s);
      var replaced := ReplaceById(roster, merged);
      Holds(if s.eventId == intoId then WithoutId(replaced, s.id) else replaced,
            acc[..|acc| - 1] + [merged], rest, intoId)
  {
    var k := |acc| - 1;
    var last := acc[k];
    var merged := Absorb(last, s);
    assert last in acc;
    assert last.id in Ids(acc);
    assert last in roster;
    ReplaceByIdMembers(roster, merged);
    var replaced := ReplaceById(roster, merged);
    DropLast(acc);
    forall x ensures x in replaced <==>
      x in acc[..k] + [merged] || (x in rest && x.eventId == intoId) || (x == s && s.eventId == intoId)
    {
      if x in rest {
        assert x.id != last.id;
      }
    }
  }

  /** The loop body when the visited sign-in `s` is accepted. */
  lemma AcceptedMembers(acc: seq<SignIn>, s: SignIn, rest: seq<SignIn>, roster: seq<SignIn>, intoId: int)
    requires s.id !in Ids(acc)
    requires forall x :: x in rest ==> x.id != s.id
    requires Holds(roster, acc, [s] + rest, intoId)
    ensures Holds(if s.eventId != intoId then roster + [s] else roster, acc + [s], rest, intoId)
  {
    if s.eventId != intoId {
      assert s.id !in Ids(roster) by {
        forall x | x in roster ensures x.id != s.id {
          if x in acc {
            assert x.id in Ids(acc);
          }
        }
      }
      var r := roster + [s];
      forall p, q | 0 <= p < q < |r| ensures r[p].id != r[q].id {
        if q == |roster| {
          assert roster[p] in roster;
          assert roster[p].id in Ids(roster);
        }
      }
    }
  }

  lemma DropLast(acc: seq<SignIn>)
    requires DistinctIds(acc) && acc != []
    ensures forall x :: x in acc[..|acc| - 1] <==> x in acc && x.id != acc[|acc| - 1].id
  {
    var k := |acc| - 1;
    forall x ensures x in acc[..k] <==> x in acc && x.id != acc[k].id {
      if x in acc[..k] {
        var p :| 0 <= p < k && acc[..k][p] == x;
        assert acc[p].id != acc[k].id;
      }
      if x in acc && x.id != acc[k].id {
        var p :| 0 <= p < |acc| && acc[p] == x;
        assert acc[..k][p] == x;
      }
    }
  }

  /** A permutation of a roster with distinct ids has distinct ids. */
  lemma AllDistinct(xs: seq<SignIn>, ys: seq<SignIn>)
    requires DistinctIds(xs) && multiset(ys) == multiset(xs)
    ensures DistinctIds(ys)
  {
    forall i, j | 0 <= i < j < |ys| ensures ys[i].id != ys[j].id {
      var p, q := SamePositions(xs, ys, i, j);
    }
  }

  /** Two positions of a permutation come from two positions of the original. */
  lemma SamePositions(xs: seq<SignIn>, ys: seq<SignIn>, i: nat, j: nat) returns (p: nat, q: nat)
    requires multiset(ys) == multiset(xs) && i < j < |ys|
    ensures p < |xs| && q < |xs| && p != q && xs[p] == ys[i] && xs[q] == ys[j]
  {
    assert ys[i] in multiset(xs) && ys[j] in multiset(xs);
    p :| 0 <= p < |xs| && xs[p] == ys[i];
    if ys[i] == ys[j] {
      MultisetTwice(ys, i, j);
      var rest := xs[..p] + xs[p + 1..];
      assert xs == xs[..p] + [xs[p]] + xs[p + 1..];
      assert multiset(rest)[ys[j]] >= 1;
      var q' :| 0 <= q' < |rest| && rest[q'] == ys[j];
      q := if q' < p then q' else q' + 1;
    } else {
      q :| 0 <= q < |xs| && xs[q] == ys[j];
    }
  }

  lemma MultisetTwice(ys: seq<SignIn>, i: nat, j: nat)
    requires i < j < |ys| && ys[i] == ys[j]
    ensures multiset(ys)[ys[i]] >= 2
  {
    assert ys == ys[..i] + [ys[i]] + ys[i + 1..j] + [ys[j]] + ys[j + 1..];
  }
}
