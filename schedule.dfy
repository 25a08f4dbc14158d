// Schedules: closed time intervals, their containment and overlap tests, the
// union of two overlapping schedules, and the single-pass merger that the
// formatter runs before painting.
module Schedules {
  import opened Times

  // ---------------------------------------------------------------------
  // Time comparisons (Go's After / Before / Equal on instants)
  // ---------------------------------------------------------------------

  /** t1 is strictly later than t2; compared day first, then seconds. */
  function TimeGT(t1: Time, t2: Time): (r: bool)
    ensures r <==> Instant(t1) > Instant(t2)
  {
    t1.day > t2.day || (t1.day == t2.day && t1.sec > t2.sec)
  }

  /** t1 is strictly earlier than t2. */
  function TimeLT(t1: Time, t2: Time): (r: bool)
    ensures r <==> Instant(t1) < Instant(t2)
  {
    t1.day < t2.day || (t1.day == t2.day && t1.sec < t2.sec)
  }

  /** Later-or-equal: the negation of TimeLT, so the order is total. */
  function TimeGTE(t1: Time, t2: Time): (r: bool)
    ensures r <==> Instant(t1) >= Instant(t2)
    ensures r <==> !TimeLT(t1, t2)
  {
    TimeGT(t1, t2) || t1 == t2
  }

  /** Earlier-or-equal: the negation of TimeGT. */
  function TimeLTE(t1: Time, t2: Time): (r: bool)
    ensures r <==> Instant(t1) <= Instant(t2)
    ensures r <==> !TimeGT(t1, t2)
  {
    TimeLT(t1, t2) || t1 == t2
  }

  // ---------------------------------------------------------------------
  // Schedules
  // ---------------------------------------------------------------------

  datatype Schedule = Schedule(start: Time, end: Time)

  /** Chronologically consistent; assumed by callers, never checked. */
  predicate WellFormed(s: Schedule)
  {
    Instant(s.start) <= Instant(s.end)
  }

  /** t lies in s, both ends included. */
  function Contains(s: Schedule, t: Time): (r: bool)
    ensures r <==> Instant(s.start) <= Instant(t) <= Instant(s.end)
  {
    TimeGTE(t, s.start) && TimeLTE(t, s.end)
  }

  /** Every instant of inner is an instant of outer. */
  predicate Covers(outer: Schedule, inner: Schedule)
  {
    Contains(outer, inner.start) && Contains(outer, inner.end)
  }

  /** The four-case overlap test; for well-formed schedules it holds exactly
      when neither schedule ends before the other starts. */
  function IsOverlapped(s: Schedule, other: Schedule): (r: bool)
    ensures WellFormed(s) && WellFormed(other) ==>
      (r <==> Instant(s.start) <= Instant(other.end) && Instant(other.start) <= Instant(s.end))
  {
    if Contains(s, other.start) && TimeLTE(s.end, other.end) then true
    else if Contains(s, other.end) && TimeGTE(s.start, other.start) then true
    else if Contains(other, s.start) && Contains(other, s.end) then true
    else if Contains(s, other.start) && Contains(s, other.end) then true
    else false
  }

  /** The earlier of two times. */
  function Earlier(a: Time, b: Time): Time
  {
    if TimeLTE(a, b) then a else b
  }

  /** The later of two times. */
  function Later(a: Time, b: Time): Time
  {
    if TimeGTE(a, b) then a else b
  }

  /** The smallest schedule covering both: earliest start, latest end. */
  function Union(s: Schedule, other: Schedule): Schedule
  {
    Schedule(Earlier(s.start, other.start), Later(s.end, other.end))
  }

  /** The four-case combination. On overlapping well-formed schedules it is
      their union; when no case applies it is the receiver unchanged. */
  function Overlap(s: Schedule, other: Schedule): (r: Schedule)
    ensures !IsOverlapped(s, other) ==> r == s
    ensures WellFormed(s) && WellFormed(other) && IsOverlapped(s, other) ==>
      r == Union(s, other) && WellFormed(r) && Covers(r, s) && Covers(r, other)
  {
    if Contains(s, other.start) && TimeLTE(s.end, other.end) then
      s.(end := other.end)
    else if Contains(s, other.end) && TimeGTE(s.start, other.start) then
      s.(start := other.start)
    else if Contains(other, s.start) && Contains(other, s.end) then
      other
    else if Contains(s, other.start) && Contains(s, other.end) then
      s
    else
      s
  }

  /** For well-formed schedules the overlap test means "share an instant". */
  lemma OverlappedIffSharedInstant(s: Schedule, other: Schedule)
    requires WellFormed(s) && WellFormed(other)
    ensures IsOverlapped(s, other) <==> exists t :: Contains(s, t) && Contains(other, t)
  {
    if IsOverlapped(s, other) {
      var t := Later(s.start, other.start);
      assert Contains(s, t) && Contains(other, t);
    }
  }

  /** Hence the overlap test is symmetric on well-formed schedules. */
  lemma OverlappedSymmetric(s: Schedule, other: Schedule)
    requires WellFormed(s) && WellFormed(other)
    ensures IsOverlapped(s, other) == IsOverlapped(other, s)
  {
  }

  /** The union does not depend on which schedule is the receiver. */
  lemma OverlapSymmetric(s: Schedule, other: Schedule)
    requires WellFormed(s) && WellFormed(other) && IsOverlapped(s, other)
    ensures Overlap(s, other) == Overlap(other, s)
  {
    var u, v := Overlap(s, other), Overlap(other, s);
    InstantInjective(u.start, v.start);
    InstantInjective(u.end, v.end);
  }

  /** Schedules that only touch at one instant overlap. */
  lemma TouchingOverlaps(s: Schedule, other: Schedule)
    requires WellFormed(s) && WellFormed(other) && s.end == other.start
    ensures IsOverlapped(s, other) && IsOverlapped(other, s)
    ensures Overlap(s, other) == Schedule(s.start, other.end)
  {
  }

  // ---------------------------------------------------------------------
  // The merger
  // ---------------------------------------------------------------------

  /** State of the merger after some prefix of the later schedules: the
      first schedule widened so far, and the schedules set aside. */
  datatype Pass = Pass(acc: Schedule, stash: seq<Schedule>)

  /** What one later schedule does to the merger's state: it widens the
      accumulator when it overlaps it, and is set aside otherwise. */
  function Step(p: Pass, x: Schedule): Pass
  {
    if IsOverlapped(p.acc, x) then Pass(Overlap(p.acc, x), p.stash)
    else Pass(p.acc, p.stash + [x])
  }

  /** One left-to-right pass: each later schedule is met by the accumulator
      as it is at that moment; a schedule set aside is never looked at
      again. */
  function Sweep(first: Schedule, rest: seq<Schedule>): Pass
    decreases |rest|
  {
    if rest == [] then Pass(first, [])
    else Step(Sweep(first, rest[..|rest| - 1]), rest[|rest| - 1])
  }

  /** Extending the later schedules by one is one more step. */
  lemma SweepSnoc(first: Schedule, init: seq<Schedule>, x: Schedule)
    ensures Sweep(first, init + [x]) == Step(Sweep(first, init), x)
  {
    assert (init + [x])[..|init|] == init;
  }

  /** The merger's result: the widened first schedule, then the set-aside
      schedules in input order. */
  function Merged(ss: seq<Schedule>): seq<Schedule>
  {
    if ss == [] then []
    else
      var p := Sweep(ss[0], ss[1..]);
      [p.acc] + p.stash
  }

  /** Position of the first schedule in `existing` that overlaps `x`, or
      |existing| when none does. */
  function FirstOverlapping(existing: seq<Schedule>, x: Schedule): (j: int)
    ensures 0 <= j <= |existing|
    ensures forall i :: 0 <= i < j ==> !IsOverlapped(existing[i], x)
    ensures j < |existing| ==> IsOverlapped(existing[j], x)
    decreases |existing|
  {
    if existing == [] then 0
    else if IsOverlapped(existing[0], x) then 0
    else 1 + FirstOverlapping(existing[1..], x)
  }

  /** The merger's inner search: the first schedule in `existing` that
      overlaps `x` is widened by it, and the search stops there; when none
      overlaps, nothing changes. */
  method Absorb(existing: seq<Schedule>, x: Schedule) returns (updated: seq<Schedule>, found: bool)
    ensures found <==> FirstOverlapping(existing, x) < |existing|
    ensures found ==> updated == existing[FirstOverlapping(existing, x) := Overlap(existing[FirstOverlapping(existing, x)], x)]
    ensures !found ==> updated == existing
  {
    updated, found := existing, false;
    var i := 0;
    while i < |updated|
      invariant 0 <= i <= FirstOverlapping(existing, x) && updated == existing && !found
    {
      if IsOverlapped(updated[i], x) {
        updated := updated[i := Overlap(updated[i], x)];
        found := true;
        return;
      }
      i := i + 1;
    }
  }

  /** With a single schedule to search, the search finds it exactly when it
      overlaps. */
  lemma SearchSingle(acc: Schedule, x: Schedule)
    ensures FirstOverlapping([acc], x) == if IsOverlapped(acc, x) then 0 else 1
  {
    if !IsOverlapped(acc, x) {
      assert [acc][1..] == [];
    }
  }

  /** Sweeping one more schedule is one more step. */
  lemma SweepPrefix(first: Schedule, rest: seq<Schedule>, i: int)
    requires 0 <= i < |rest|
    ensures Sweep(first, rest[..i + 1]) == Step(Sweep(first, rest[..i]), rest[i])
  {
    assert rest[..i + 1] == rest[..i] + [rest[i]];
    SweepSnoc(first, rest[..i], rest[i]);
  }

  /** One iteration of the merger's outer loop, on the k-th later schedule:
      search the one-element `existing` for it, and set it aside when it is
      not absorbed. The state after it is the sweep one schedule further. */
  method MergeOne(existing: seq<Schedule>, stashed: seq<Schedule>, ghost first: Schedule,
                  rest: seq<Schedule>, k: int)
    returns (existing': seq<Schedule>, stashed': seq<Schedule>)
    requires |existing| == 1 && 0 <= k < |rest|
    requires Pass(existing[0], stashed) == Sweep(first, rest[..k])
    ensures |existing'| == 1
    ensures Pass(existing'[0], stashed') == Sweep(first, rest[..k + 1])
  {
    var x := rest[k];
    SearchSingle(existing[0], x);
    var found;
    existing', found := Absorb(existing, x);
    stashed' := stashed;
    if !found {
      stashed' := stashed' + [x];
    }
    SweepPrefix(first, rest, k);
  }

  /** The merger as written: `existing` is the first schedule alone and never
      grows; `stashed` collects the schedules that did not overlap it. */
  method OverlapSchedules(ss: seq<Schedule>) returns (r: seq<Schedule>)
    ensures r == Merged(ss)
  {
    if |ss| == 0 {
      return [];
    }
    var existing := ss[..1];
    var stashed: seq<Schedule> := [];
    var rest := ss[1..];
    assert existing[0] == ss[0] && rest[..0] == [];
    for k := 0 to |rest|
      invariant |existing| == 1
      invariant Pass(existing[0], stashed) == Sweep(ss[0], rest[..k])
    {
      existing, stashed := MergeOne(existing, stashed, ss[0], rest, k);
    }
    assert rest[..|rest|] == rest && existing == [existing[0]];
    r := existing + stashed;
  }

  /** The merger never lengthens the list. */
  lemma {:induction false} SweepStashBound(first: Schedule, rest: seq<Schedule>)
    ensures |Sweep(first, rest).stash| <= |rest|
    decreases |rest|
  {
    if rest != [] {
      SweepStashBound(first, rest[..|rest| - 1]);
    }
  }

  /** `idx` lists, in increasing order, positions of `rest`, and `stash`
      holds the schedules at those positions. */
  ghost predicate PositionsOf(stash: seq<Schedule>, rest: seq<Schedule>, idx: seq<int>)
  {
    && |idx| == |stash|
    && (forall j :: 0 <= j < |idx| ==> 0 <= idx[j] < |rest| && stash[j] == rest[idx[j]])
    && (forall i, j :: 0 <= i < j < |idx| ==> idx[i] < idx[j])
  }

  /** The set-aside list holds, in input order, exactly the later schedules
      that do not overlap the accumulator as it stands when each is reached. */
  ghost predicate SetAsideAt(first: Schedule, rest: seq<Schedule>, idx: seq<int>)
  {
    && PositionsOf(Sweep(first, rest).stash, rest, idx)
    && (forall k :: 0 <= k < |rest| ==>
          (k in idx <==> !IsOverlapped(Sweep(first, rest[..k]).acc, rest[k])))
  }

  /** Positions stay valid when `rest` grows by one, and one more position
      can be listed when its schedule is appended. */
  lemma PositionsOfStep(stash: seq<Schedule>, rest: seq<Schedule>, idx: seq<int>, keep: bool)
    requires rest != []
    requires PositionsOf(stash, rest[..|rest| - 1], idx)
    ensures keep ==> PositionsOf(stash + [rest[|rest| - 1]], rest, idx + [|rest| - 1])
    ensures !keep ==> PositionsOf(stash, rest, idx)
    ensures |rest| - 1 !in idx
  {
    var n := |rest| - 1;
    assert forall j :: 0 <= j < |idx| ==> rest[..n][idx[j]] == rest[idx[j]];
  }

  /** Whether the last of `rest` is set aside extends the membership clause
      of `SetAsideAt` by one position. */
  lemma SetAsideMembersStep(first: Schedule, rest: seq<Schedule>, idx: seq<int>)
    requires rest != [] && |rest| - 1 !in idx
    requires forall k :: 0 <= k < |rest| - 1 ==>
      (k in idx <==> !IsOverlapped(Sweep(first, rest[..|rest| - 1][..k]).acc, rest[..|rest| - 1][k]))
    ensures var n := |rest| - 1;
      var idx' := if IsOverlapped(Sweep(first, rest[..n]).acc, rest[n]) then idx else idx + [n];
      forall k :: 0 <= k < |rest| ==>
        (k in idx' <==> !IsOverlapped(Sweep(first, rest[..k]).acc, rest[k]))
  {
    var n := |rest| - 1;
    var init := rest[..n];
    forall k | 0 <= k < n
      ensures init[..k] == rest[..k] && init[k] == rest[k]
    {
    }
  }

  /** The set-aside schedules keep their input order and are exactly the ones
      not absorbed when reached. */
  lemma {:induction false} SweepStashInOrder(first: Schedule, rest: seq<Schedule>)
    ensures exists idx :: SetAsideAt(first, rest, idx)
    decreases |rest|
  {
    if rest == [] {
      assert SetAsideAt(first, rest, []);
    } else {
      var n := |rest| - 1;
      var init := rest[..n];
      SweepStashInOrder(first, init);
      var idx :| SetAsideAt(first, init, idx);
      var p := Sweep(first, init);
      var absorbed := IsOverlapped(p.acc, rest[n]);
      var idx' := if absorbed then idx else idx + [n];
      PositionsOfStep(p.stash, rest, idx, !absorbed);
      assert Sweep(first, rest).stash == if absorbed then p.stash else p.stash + [rest[n]];
      SetAsideMembersStep(first, rest, idx);
      assert SetAsideAt(first, rest, idx');
    }
  }

  lemma MergedLength(ss: seq<Schedule>)
    ensures |Merged(ss)| <= |ss|
    ensures ss == [] <==> Merged(ss) == []
  {
    if ss != [] {
      SweepStashBound(ss[0], ss[1..]);
    }
  }

  /** One step on well-formed schedules: the accumulator stays well formed
      and only grows, and a schedule is set aside only when it shares no
      instant with the accumulator. */
  lemma StepProperties(p: Pass, x: Schedule)
    requires WellFormed(p.acc) && WellFormed(x)
    ensures var q := Step(p, x);
      && WellFormed(q.acc)
      && Covers(q.acc, p.acc)
      && (Covers(q.acc, x) || (q.stash == p.stash + [x] && !IsOverlapped(p.acc, x)))
      && (IsOverlapped(p.acc, x) ==> q.stash == p.stash)
  {
  }

  /** On well-formed input the accumulator stays well formed and covers the
      first schedule, and what is set aside comes from the input, is well
      formed and shares no instant with the first schedule. */
  lemma {:induction false} SweepAccStash(first: Schedule, rest: seq<Schedule>)
    requires WellFormed(first)
    requires forall k :: 0 <= k < |rest| ==> WellFormed(rest[k])
    ensures var p := Sweep(first, rest);
      && WellFormed(p.acc)
      && Covers(p.acc, first)
      && multiset(p.stash) <= multiset(rest)
      && (forall x :: x in p.stash ==> WellFormed(x) && !IsOverlapped(first, x))
    decreases |rest|
  {
    if rest != [] {
      var init, x := rest[..|rest| - 1], rest[|rest| - 1];
      SweepAccStash(first, init);
      var p := Sweep(first, init);
      StepProperties(p, x);
      assert rest == init + [x];
      assert multiset(rest) == multiset(init) + multiset{x};
    }
  }

  /** Every later schedule is absorbed into the accumulator or set aside. */
  lemma {:induction false} SweepCovers(first: Schedule, rest: seq<Schedule>)
    requires WellFormed(first)
    requires forall k :: 0 <= k < |rest| ==> WellFormed(rest[k])
    ensures var p := Sweep(first, rest);
      forall k :: 0 <= k < |rest| ==> Covers(p.acc, rest[k]) || rest[k] in p.stash
    decreases |rest|
  {
    if rest != [] {
      var init, x := rest[..|rest| - 1], rest[|rest| - 1];
      SweepCovers(first, init);
      SweepAccStash(first, init);
      var p, q := Sweep(first, init), Sweep(first, rest);
      StepProperties(p, x);
      forall k | 0 <= k < |rest|
        ensures Covers(q.acc, rest[k]) || rest[k] in q.stash
      {
        if k < |init| {
          assert rest[k] == init[k];
          assert rest[k] in p.stash ==> rest[k] in q.stash;
        }
      }
    }
  }

  /** A later schedule that overlapped the accumulator when reached stays
      covered by the final accumulator, whatever equal values were set aside
      elsewhere. */
  lemma {:induction false} SweepAbsorbedCovered(first: Schedule, rest: seq<Schedule>, k: int)
    requires WellFormed(first)
    requires forall j :: 0 <= j < |rest| ==> WellFormed(rest[j])
    requires 0 <= k < |rest| && IsOverlapped(Sweep(first, rest[..k]).acc, rest[k])
    ensures Covers(Sweep(first, rest).acc, rest[k])
    decreases |rest|
  {
    var n := |rest| - 1;
    var init := rest[..n];
    SweepAccWellFormed(first, init);
    var p := Sweep(first, init);
    StepProperties(p, rest[n]);
    var q := Sweep(first, rest);
    if k == n {
      assert rest[..k] == init;
    } else {
      assert init[..k] == rest[..k] && init[k] == rest[k];
      SweepAbsorbedCovered(first, init, k);
      CoversTransitive(q.acc, p.acc, rest[k]);
    }
  }

  /** The accumulator of a sweep over well-formed schedules is well formed. */
  lemma SweepAccWellFormed(first: Schedule, rest: seq<Schedule>)
    requires WellFormed(first)
    requires forall j :: 0 <= j < |rest| ==> WellFormed(rest[j])
    ensures WellFormed(Sweep(first, rest).acc)
  {
    SweepAccStash(first, rest);
  }

  /** Covering is transitive. */
  lemma CoversTransitive(a: Schedule, b: Schedule, c: Schedule)
    requires Covers(a, b) && Covers(b, c)
    ensures Covers(a, c)
  {
  }

  /** The same for the merger's output: each later schedule absorbed when
      reached is covered by the first output. */
  lemma MergedAbsorbedCovered(ss: seq<Schedule>)
    requires forall k :: 0 <= k < |ss| ==> WellFormed(ss[k])
    ensures ss != [] ==> forall k :: 1 <= k < |ss| && IsOverlapped(Sweep(ss[0], ss[1..k]).acc, ss[k]) ==>
      Covers(Merged(ss)[0], ss[k])
  {
    if ss != [] {
      var rest := ss[1..];
      forall k | 1 <= k < |ss| && IsOverlapped(Sweep(ss[0], ss[1..k]).acc, ss[k])
        ensures Covers(Merged(ss)[0], ss[k])
      {
        assert rest[..k - 1] == ss[1..k] && rest[k - 1] == ss[k];
        SweepAbsorbedCovered(ss[0], rest, k - 1);
      }
    }
  }

  /** What the merger promises on well-formed input. */
  lemma MergedProperties(ss: seq<Schedule>)
    requires forall k :: 0 <= k < |ss| ==> WellFormed(ss[k])
    ensures forall k :: 0 <= k < |Merged(ss)| ==> WellFormed(Merged(ss)[k])
    ensures ss != [] ==> forall k :: 0 <= k < |ss| ==>
      Covers(Merged(ss)[0], ss[k]) || ss[k] in Merged(ss)[1..]
    ensures ss != [] ==> multiset(Merged(ss)[1..]) <= multiset(ss[1..])
    ensures ss != [] ==> forall k :: 1 <= k < |ss| && IsOverlapped(Sweep(ss[0], ss[1..k]).acc, ss[k]) ==>
      Covers(Merged(ss)[0], ss[k])
  {
    if ss != [] {
      var rest := ss[1..];
      SweepAccStash(ss[0], rest);
      SweepCovers(ss[0], rest);
      var m := Merged(ss);
      assert m[1..] == Sweep(ss[0], rest).stash;
      forall k | 0 <= k < |ss|
        ensures Covers(m[0], ss[k]) || ss[k] in m[1..]
      {
        if k > 0 {
          assert ss[k] == rest[k - 1];
        }
      }
      forall k | 0 <= k < |m|
        ensures WellFormed(m[k])
      {
        if k > 0 {
          assert m[k] in m[1..];
        }
      }
    }
    MergedAbsorbedCovered(ss);
  }

  /** A touching pair merges to the same single schedule in either order. */
  lemma TouchingPairOrderInsensitive(a: Schedule, b: Schedule)
    requires WellFormed(a) && WellFormed(b) && a.end == b.start
    ensures Merged([a, b]) == Merged([b, a]) == [Schedule(a.start, b.end)]
  {
    TouchingOverlaps(a, b);
    OverlapSymmetric(a, b);
    assert [a, b][1..] == [b] && [b][..0] == [];
    assert Sweep(a, [b]) == Pass(Overlap(a, b), []);
    assert [b, a][1..] == [a] && [a][..0] == [];
    assert Sweep(b, [a]) == Pass(Overlap(b, a), []);
  }

  /** The output need not be pairwise disjoint: a schedule set aside early is
      not looked at again after the accumulator grows to reach it. */
  lemma MergedNotAlwaysDisjoint()
    ensures var m := Merged([Schedule(At(1, 0), At(2, 0)), Schedule(At(5, 0), At(6, 0)),
                             Schedule(At(2, 0), At(5, 0))]);
      m == [Schedule(At(1, 0), At(5, 0)), Schedule(At(5, 0), At(6, 0))]
      && IsOverlapped(m[0], m[1])
  {
    var a, b, c := Schedule(At(1, 0), At(2, 0)), Schedule(At(5, 0), At(6, 0)), Schedule(At(2, 0), At(5, 0));
    assert !IsOverlapped(a, b);
    assert IsOverlapped(a, c) && Overlap(a, c) == Schedule(At(1, 0), At(5, 0));
    assert Sweep(a, []) == Pass(a, []);
    SweepSnoc(a, [], b);
    SweepSnoc(a, [b], c);
    assert [] + [b] == [b] && [b] + [c] == [b, c] && [a, b, c][1..] == [b, c];
  }

  /** The repository's merger cases: a single schedule is kept as it is. */
  lemma MergedSingle()
    ensures Merged([Schedule(At(12, 0), At(16, 0))]) == [Schedule(At(12, 0), At(16, 0))]
  {
    assert [Schedule(At(12, 0), At(16, 0))][1..] == [];
  }

  /** Two later schedules both overlapping the first are absorbed into it. */
  lemma MergedOverlappedExample()
    ensures Merged([Schedule(At(16, 0), At(19, 0)), Schedule(At(12, 0), At(17, 0)),
                    Schedule(At(13, 0), At(14, 0))]) == [Schedule(At(12, 0), At(19, 0))]
  {
    var b, c, d := Schedule(At(16, 0), At(19, 0)), Schedule(At(12, 0), At(17, 0)), Schedule(At(13, 0), At(14, 0));
    assert [b, c, d][1..] == [c, d] && [c, d][..1] == [c] && [c][..0] == [];
    assert Sweep(b, [c]) == Pass(Schedule(At(12, 0), At(19, 0)), []);
  }

  /** Schedules with a gap between them are both kept, in order. */
  lemma MergedApartExample()
    ensures Merged([Schedule(At(12, 0), At(15, 0)), Schedule(At(16, 0), At(19, 0))])
         == [Schedule(At(12, 0), At(15, 0)), Schedule(At(16, 0), At(19, 0))]
  {
    var e, f := Schedule(At(12, 0), At(15, 0)), Schedule(At(16, 0), At(19, 0));
    assert [e, f][1..] == [f] && [f][..0] == [];
  }

  /** Schedules inside the first leave it unchanged. */
  lemma MergedContainedExample()
    ensures Merged([Schedule(At(12, 0), At(15, 0)), Schedule(At(13, 0), At(14, 0)),
                    Schedule(At(12, 0), At(14, 30))]) == [Schedule(At(12, 0), At(15, 0))]
  {
    var e, g, h := Schedule(At(12, 0), At(15, 0)), Schedule(At(13, 0), At(14, 0)), Schedule(At(12, 0), At(14, 30));
    assert [e, g, h][1..] == [g, h] && [g, h][..1] == [g] && [g][..0] == [];
    assert Sweep(e, [g]) == Pass(e, []);
  }
}
