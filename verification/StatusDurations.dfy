/** Turning the log of a system's status changes into the intervals during which it had each status. */
module StatusDurations {
  import opened Prelude

  type Time = int

  type Status = string

  const BROKEN: Status := "Broken"

  /** A logged change; the old status is missing in some old records. Names are resolved already. */
  datatype Change = Change(created: Time, was: Option<Status>, now: Status)

  /** An interval with a status; the last one has no end. */
  datatype Duration = Duration(status: Status, start: Time, finish: Option<Time>)

  function Max(a: Time, b: Time): Time {
    if a < b then b else a
  }

  /** The status before the first change. */
  function InitialStatus(changes: seq<Change>): Status {
    if changes != [] && changes[0].was.Some? then changes[0].was.value else BROKEN
  }

  /** Consecutive intervals from `start` on, all closed but the last, which is open. */
  ghost predicate Partition(ds: seq<Duration>, start: Time) {
    && ds != [] && ds[0].start == start && ds[|ds| - 1].finish.None?
    && forall i :: 0 <= i < |ds| - 1 ==>
      ds[i].finish == Some(ds[i + 1].start) && ds[i].start < ds[i + 1].start && ds[i].status != ds[i + 1].status
  }

  ghost predicate Covers(d: Duration, t: Time) {
    d.start <= t && (d.finish.Some? ==> t < d.finish.value)
  }

  /** The status set by the last change at or before `t`, and the initial one before any change. */
  function StatusAt(changes: seq<Change>, t: Time): Status
    decreases |changes|
  {
    if changes == [] then BROKEN
    else
      var last := changes[|changes| - 1];
      if last.created <= t then last.now
      else if |changes| == 1 then InitialStatus(changes)
      else StatusAt(changes[..|changes| - 1], t)
  }

  /** Each change is later than the one before, and all are later than the addition of the system. */
  ghost predicate StrictlyOrdered(changes: seq<Change>, added: Time) {
    && (forall i :: 0 <= i < |changes| ==> added < changes[i].created)
    && (forall i, j :: 0 <= i < j < |changes| ==> changes[i].created < changes[j].created)
  }

  /** The state of the loop: what was recorded, and the interval that is still open. */
  datatype State = State(closed: seq<Duration>, status: Option<Status>, start: Time)

  function Advanced(s: State, c: Change, added: Time): State {
    var changedAt := Max(added, c.created);
    var status := if s.status.Some? then s.status.value else if c.was.Some? then c.was.value else BROKEN;
    if changedAt > s.start && status != c.now
    then State(s.closed + [Duration(status, s.start, Some(changedAt))], Some(c.now), changedAt)
    else s.(status := Some(status))
  }

  function After(changes: seq<Change>, added: Time): State
    decreases |changes|
  {
    if changes == [] then State([], None, added)
    else Advanced(After(changes[..|changes| - 1], added), changes[|changes| - 1], added)
  }

  function Closed(s: State): seq<Duration> {
    s.closed + [Duration(if s.status.Some? then s.status.value else BROKEN, s.start, None)]
  }

  lemma PartitionStep(s: State, c: Change, added: Time)
    requires Partition(Closed(s), added) && (s.status.None? ==> s.closed == [])
    ensures Partition(Closed(Advanced(s, c, added)), added)
  {
    var ds, next := Closed(s), Closed(Advanced(s, c, added));
    var n := |s.closed|;
    forall i | 0 <= i < |next| - 1
      ensures next[i].finish == Some(next[i + 1].start) && next[i].start < next[i + 1].start
      ensures next[i].status != next[i + 1].status
    {
      if i < n {
        assert next[i] == ds[i] && next[i + 1].start == ds[i + 1].start;
        assert i + 1 < n ==> next[i + 1] == ds[i + 1];
      }
    }
    assert n > 0 ==> next[0] == ds[0];
  }

  /** Whatever the log, the recorded intervals partition the time since the addition of the system. */
  lemma {:induction false} LoopPartitions(changes: seq<Change>, added: Time)
    ensures Partition(Closed(After(changes, added)), added)
    ensures After(changes, added).status.None? ==> After(changes, added).closed == []
    decreases |changes|
  {
    if changes != [] {
      LoopPartitions(changes[..|changes| - 1], added);
      PartitionStep(After(changes[..|changes| - 1], added), changes[|changes| - 1], added);
    }
  }

  method PopulateStatusDurations(added: Time, changes: seq<Change>) returns (durations: seq<Duration>)
    ensures durations == Closed(After(changes, added))
    ensures Partition(durations, added)
  {
    durations := [];
    var startTime := added;
    var status: Option<Status> := None;
    for i := 0 to |changes|
      invariant After(changes[..i], added) == State(durations, status, startTime)
    {
      assert changes[..i + 1][..i] == changes[..i];
      var activity := changes[i];
      var changedAt := Max(added, activity.created);
      if status.None? {
        status := if activity.was.Some? then activity.was else Some(BROKEN);
      }
      if changedAt > startTime && status.value != activity.now {
        durations := durations + [Duration(status.value, startTime, Some(changedAt))];
        status := Some(activity.now);
        startTime := changedAt;
      }
    }
    assert changes[..|changes|] == changes;
    LoopPartitions(changes, added);
    durations := durations + [Duration(if status.Some? then status.value else BROKEN, startTime, None)];
  }

  /** Without any change, or if the first one does not say what was before, the system begins as broken. */
  lemma BeginsBroken(changes: seq<Change>, added: Time)
    requires changes == [] || changes[0].was.None?
    ensures InitialStatus(changes) == "Broken"
    ensures changes == [] ==> Closed(After(changes, added)) == [Duration("Broken", added, None)]
    ensures |changes| == 1 && changes[0].created > added && changes[0].now != "Broken" ==>
      Closed(After(changes, added)) == [
        Duration("Broken", added, Some(changes[0].created)),
        Duration(changes[0].now, changes[0].created, None)]
  {
    if |changes| == 1 {
      assert changes[..0] == [];
    }
  }

  /** Exactly one interval of a partition covers any given time from its start on. */
  lemma {:induction false} OneIntervalCovers(ds: seq<Duration>, start: Time, t: Time, i: nat, j: nat)
    requires Partition(ds, start) && i < j < |ds| && Covers(ds[i], t)
    ensures !Covers(ds[j], t)
    decreases j - i
  {
    StartsIncrease(ds, start, i + 1, j);
  }

  lemma {:induction false} SomeIntervalCovers(ds: seq<Duration>, start: Time, t: Time, n: nat) returns (i: nat)
    requires Partition(ds, start) && start <= t && 0 < n <= |ds|
    requires n < |ds| ==> t < ds[n].start
    ensures i < n && Covers(ds[i], t)
    decreases n
  {
    if ds[n - 1].start <= t {
      i := n - 1;
    } else {
      i := SomeIntervalCovers(ds, start, t, n - 1);
    }
  }

  lemma {:induction false} StartsIncrease(ds: seq<Duration>, start: Time, i: nat, j: nat)
    requires Partition(ds, start) && i <= j < |ds|
    ensures ds[i].start <= ds[j].start
    decreases j - i
  {
    if i < j {
      StartsIncrease(ds, start, i + 1, j);
    }
  }

  /* Exactly when the intervals refine the log */

  /** The intervals and the log agree about every time since the system was added. */
  ghost predicate Refines(changes: seq<Change>, added: Time) {
    forall d, t :: d in Closed(After(changes, added)) && Covers(d, t) && added <= t ==> d.status == StatusAt(changes, t)
  }

  /** The log is read in the order of the times of the changes. */
  ghost predicate Sorted(changes: seq<Change>) {
    forall i, j :: 0 <= i < j < |changes| ==> changes[i].created <= changes[j].created
  }

  /** The time at which a change counts: none counts before the system was added. */
  function Key(changes: seq<Change>, added: Time, i: nat): Time
    requires i < |changes|
  {
    Max(added, changes[i].created)
  }

  /** The changes from `a` up to `b` are all those that count at one time. */
  ghost predicate IsGroup(changes: seq<Change>, added: Time, a: nat, b: nat) {
    && a < b <= |changes|
    && (forall i :: a <= i < b ==> Key(changes, added, i) == Key(changes, added, a))
    && (a > 0 ==> Key(changes, added, a - 1) < Key(changes, added, a))
    && (b < |changes| ==> Key(changes, added, a) < Key(changes, added, b))
  }

  /** The status according to the first `m` changes of the log. */
  function Logged(changes: seq<Change>, m: nat): Status
    requires m <= |changes|
  {
    if m == 0 then InitialStatus(changes) else changes[m - 1].now
  }

  /** The first change from `a` on to a status other than `was`. */
  predicate IsFirstOther(changes: seq<Change>, a: nat, j: nat, was: Status) {
    a <= j < |changes| && changes[j].now != was && forall i :: a <= i < j ==> changes[i].now == was
  }

  /**
   What is recorded of a group is right. Of the changes at the time of the addition nothing is recorded, so that they
   must lead back to the status before. Of later ones the first is recorded that makes a difference, and it must be to
   the status in which the group ends.
   */
  ghost predicate GroupKept(changes: seq<Change>, added: Time, a: nat, b: nat)
    requires a < b <= |changes|
  {
    var (was, last) := (Logged(changes, a), Logged(changes, b));
    if Key(changes, added, a) == added then last == was
    else forall j: nat :: j < b && IsFirstOther(changes, a, j, was) ==> last == changes[j].now
  }

  /** The status of the open interval, given the status before the first change. */
  function StatusOr(s: State, initial: Status): Status {
    if s.status.Some? then s.status.value else initial
  }

  function ClosedWith(s: State, initial: Status): seq<Duration> {
    s.closed + [Duration(StatusOr(s, initial), s.start, None)]
  }

  function At(changes: seq<Change>, added: Time, m: nat): State
    requires m <= |changes|
  {
    After(changes[..m], added)
  }

  lemma NextState(changes: seq<Change>, added: Time, m: nat)
    requires m < |changes|
    ensures At(changes, added, m + 1) == Advanced(At(changes, added, m), changes[m], added)
  {
    assert changes[..m + 1][..m] == changes[..m];
  }

  lemma {:induction false} StartBound(changes: seq<Change>, added: Time, m: nat)
    requires Sorted(changes) && m <= |changes|
    ensures added <= At(changes, added, m).start <= if m == 0 then added else Key(changes, added, m - 1)
    ensures At(changes, added, m).status.None? <==> m == 0
    ensures m == 0 ==> At(changes, added, m) == State([], None, added)
    decreases m
  {
    if m > 0 {
      StartBound(changes, added, m - 1);
      NextState(changes, added, m - 1);
    }
  }

  lemma NextStatus(changes: seq<Change>, added: Time, m: nat)
    requires Sorted(changes) && m < |changes|
    ensures
      var (initial, s, next) := (InitialStatus(changes), At(changes, added, m), At(changes, added, m + 1));
      && next.status.Some?
      && (if Key(changes, added, m) > s.start && StatusOr(s, initial) != changes[m].now
        then StatusOr(next, initial) == changes[m].now && next.start == Key(changes, added, m) &&
          next.closed == s.closed + [Duration(StatusOr(s, initial), s.start, Some(next.start))]
        else StatusOr(next, initial) == StatusOr(s, initial) && next.start == s.start && next.closed == s.closed)
  {
    NextState(changes, added, m);
    StartBound(changes, added, m);
  }

  /** Changes that make no difference, or count at the time of the addition, are passed over. */
  lemma {:induction false} GroupPassed(changes: seq<Change>, added: Time, a: nat, b: nat, i: nat)
    requires Sorted(changes) && IsGroup(changes, added, a, b) && a <= i <= b
    requires
      || Key(changes, added, a) == added
      || forall j :: a <= j < i ==> changes[j].now == StatusOr(At(changes, added, a), InitialStatus(changes))
    ensures
      var (s, next) := (At(changes, added, a), At(changes, added, i));
      StatusOr(next, InitialStatus(changes)) == StatusOr(s, InitialStatus(changes)) && next.start == s.start
    decreases i
  {
    StartBound(changes, added, a);
    if i > a {
      GroupPassed(changes, added, a, b, i - 1);
      NextStatus(changes, added, i - 1);
    }
  }

  /** The first change that makes a difference is recorded, and no other one of its group. */
  lemma {:induction false} GroupSettled(changes: seq<Change>, added: Time, a: nat, b: nat, j: nat, i: nat)
    requires Sorted(changes) && IsGroup(changes, added, a, b) && Key(changes, added, a) > added && j < i <= b
    requires IsFirstOther(changes, a, j, StatusOr(At(changes, added, a), InitialStatus(changes)))
    ensures StatusOr(At(changes, added, i), InitialStatus(changes)) == changes[j].now
    ensures At(changes, added, i).start == Key(changes, added, a)
    decreases i
  {
    NextStatus(changes, added, i - 1);
    assert Key(changes, added, i - 1) == Key(changes, added, a);
    if i - 1 == j {
      StartBound(changes, added, a);
      GroupPassed(changes, added, a, b, j);
    } else {
      GroupSettled(changes, added, a, b, j, i - 1);
    }
  }

  lemma {:induction false} FirstOtherExists(changes: seq<Change>, a: nat, i: nat, was: Status) returns (j: nat)
    requires a <= i < |changes| && changes[i].now != was
    ensures j <= i && IsFirstOther(changes, a, j, was)
    decreases i
  {
    if k: nat :| a <= k < i && changes[k].now != was {
      j := FirstOtherExists(changes, a, k, was);
    } else {
      j := i;
    }
  }

  /** An interval that covers a time shows the status of the loop just after the changes that count up to that time. */
  lemma {:induction false} CoverShows(changes: seq<Change>, added: Time, m: nat, n: nat, d: Duration, t: Time)
    requires Sorted(changes) && m <= n <= |changes| && At(changes, added, m).start <= t
    requires m < |changes| ==> t < Key(changes, added, m)
    requires d in ClosedWith(At(changes, added, n), InitialStatus(changes)) && Covers(d, t)
    ensures d.status == StatusOr(At(changes, added, m), InitialStatus(changes))
    decreases n
  {
    var initial := InitialStatus(changes);
    if n == m {
      ClosedEarlier(changes, added, m);
    } else {
      NextStatus(changes, added, n - 1);
      var (s, next) := (At(changes, added, n - 1), At(changes, added, n));
      var open := Duration(StatusOr(s, initial), s.start, None);
      assert open in ClosedWith(s, initial);
      assert t < Key(changes, added, n - 1);
      if d in s.closed {
        CoverShows(changes, added, m, n - 1, d, t);
      } else {
        assert Covers(open, t) && d.status == open.status;
        CoverShows(changes, added, m, n - 1, open, t);
      }
    }
  }

  lemma {:induction false} ClosedEarlier(changes: seq<Change>, added: Time, m: nat)
    requires Sorted(changes) && m <= |changes|
    ensures
      forall d :: d in At(changes, added, m).closed ==> d.finish.Some? && d.finish.value <= At(changes, added, m).start
    decreases m
  {
    StartBound(changes, added, m);
    if m > 0 {
      ClosedEarlier(changes, added, m - 1);
      NextStatus(changes, added, m - 1);
    }
  }

  lemma {:induction false} LoggedAt(changes: seq<Change>, t: Time, m: nat, n: nat)
    requires m <= n <= |changes|
    requires forall i :: 0 <= i < m ==> changes[i].created <= t
    requires forall i :: m <= i < n ==> t < changes[i].created
    requires n > 0
    ensures StatusAt(changes[..n], t) == Logged(changes, m)
    decreases n
  {
    var part := changes[..n];
    assert part[n - 1] == changes[n - 1] && part[0] == changes[0];
    assert InitialStatus(part) == InitialStatus(changes);
    if m < n && n > 1 {
      assert part[..n - 1] == changes[..n - 1];
      LoggedAt(changes, t, m, n - 1);
    }
  }

  /** Changes up to some time, and those after it. */
  lemma {:induction false} Cut(changes: seq<Change>, added: Time, t: Time, n: nat) returns (m: nat)
    requires Sorted(changes) && n <= |changes| && added <= t
    ensures m <= n
    ensures forall i :: 0 <= i < m ==> Key(changes, added, i) <= t
    ensures forall i :: m <= i < n ==> t < Key(changes, added, i)
    decreases n
  {
    if n == 0 || Key(changes, added, n - 1) <= t {
      m := n;
      assert forall i :: 0 <= i < n ==> Key(changes, added, i) <= Key(changes, added, n - 1);
    } else {
      m := Cut(changes, added, t, n - 1);
    }
  }

  /** No group is cut in two after `m` changes. */
  ghost predicate EndsGroup(changes: seq<Change>, added: Time, m: nat) {
    m <= |changes| && (0 < m < |changes| ==> Key(changes, added, m - 1) < Key(changes, added, m))
  }

  lemma {:induction false} GroupBefore(changes: seq<Change>, added: Time, b: nat, a: nat) returns (start: nat)
    requires Sorted(changes) && a < b && EndsGroup(changes, added, b)
    requires forall i :: a <= i < b ==> Key(changes, added, i) == Key(changes, added, b - 1)
    ensures IsGroup(changes, added, start, b) && EndsGroup(changes, added, start)
    decreases a
  {
    if a > 0 && Key(changes, added, a - 1) == Key(changes, added, b - 1) {
      start := GroupBefore(changes, added, b, a - 1);
    } else {
      start := a;
    }
  }

  /** At a time at which a group of changes is complete, some interval shows the status of the loop, and only that. */
  lemma ShownAt(changes: seq<Change>, added: Time, t: Time, m: nat) returns (d: Duration)
    requires Sorted(changes) && EndsGroup(changes, added, m) && added <= t
    requires forall i :: 0 <= i < m ==> Key(changes, added, i) <= t
    requires forall i :: m <= i < |changes| ==> t < Key(changes, added, i)
    ensures d in Closed(After(changes, added)) && Covers(d, t)
    ensures StatusAt(changes, t) == Logged(changes, m)
    ensures forall e :: e in Closed(After(changes, added)) && Covers(e, t) ==>
      e.status == StatusOr(At(changes, added, m), InitialStatus(changes))
  {
    var ds := Closed(After(changes, added));
    LoopPartitions(changes, added);
    var i := SomeIntervalCovers(ds, added, t, |ds|);
    d := ds[i];
    assert changes[..|changes|] == changes;
    StartBound(changes, added, m);
    StartBound(changes, added, |changes|);
    assert ds == ClosedWith(At(changes, added, |changes|), InitialStatus(changes));
    forall e | e in ds && Covers(e, t)
      ensures e.status == StatusOr(At(changes, added, m), InitialStatus(changes))
    {
      CoverShows(changes, added, m, |changes|, e, t);
    }
    if changes != [] {
      LoggedAt(changes, t, m, |changes|);
    }
  }

  /** One group later, the loop has the logged status exactly if what it records of the group is right. */
  lemma GroupStep(changes: seq<Change>, added: Time, a: nat, b: nat)
    requires Sorted(changes) && IsGroup(changes, added, a, b)
    requires StatusOr(At(changes, added, a), InitialStatus(changes)) == Logged(changes, a)
    ensures
      StatusOr(At(changes, added, b), InitialStatus(changes)) == Logged(changes, b) <==> GroupKept(changes, added, a, b)
  {
    var was := Logged(changes, a);
    if Key(changes, added, a) == added || forall i :: a <= i < b ==> changes[i].now == was {
      GroupPassed(changes, added, a, b, b);
    } else {
      var i: nat :| a <= i < b && changes[i].now != was;
      var j := FirstOtherExists(changes, a, i, was);
      GroupSettled(changes, added, a, b, j, b);
      assert forall k: nat :: k < b && IsFirstOther(changes, a, k, was) ==> k == j;
    }
  }

  lemma {:induction false} KeptIsLogged(changes: seq<Change>, added: Time, m: nat)
    requires Sorted(changes) && EndsGroup(changes, added, m)
    requires forall a: nat, b: nat :: IsGroup(changes, added, a, b) ==> GroupKept(changes, added, a, b)
    ensures StatusOr(At(changes, added, m), InitialStatus(changes)) == Logged(changes, m)
    decreases m
  {
    StartBound(changes, added, m);
    if m > 0 {
      var a := GroupBefore(changes, added, m, m - 1);
      KeptIsLogged(changes, added, a);
      GroupStep(changes, added, a, m);
    }
  }

  lemma LoggedAtGroup(changes: seq<Change>, added: Time, m: nat)
    requires Sorted(changes) && Refines(changes, added) && EndsGroup(changes, added, m)
    ensures StatusOr(At(changes, added, m), InitialStatus(changes)) == Logged(changes, m)
  {
    StartBound(changes, added, m);
    if m > 0 {
      var t := Key(changes, added, m - 1);
      assert forall i :: 0 <= i < m ==> Key(changes, added, i) <= t;
      assert m < |changes| ==> forall i :: m <= i < |changes| ==> Key(changes, added, m) <= Key(changes, added, i);
      var d := ShownAt(changes, added, t, m);
    }
  }

  /**
   The intervals refine the log exactly when every group of changes that count at one time is kept: those up to the
   addition of the system lead back to the initial status, and of any others the first to differ is to the last status.
   */
  lemma RefinesIffGroupsKept(changes: seq<Change>, added: Time)
    requires Sorted(changes)
    ensures
      Refines(changes, added) <==>
      forall a: nat, b: nat :: IsGroup(changes, added, a, b) ==> GroupKept(changes, added, a, b)
  {
    if Refines(changes, added) {
      forall a: nat, b: nat | IsGroup(changes, added, a, b)
        ensures GroupKept(changes, added, a, b)
      {
        assert EndsGroup(changes, added, a) && EndsGroup(changes, added, b);
        LoggedAtGroup(changes, added, a);
        LoggedAtGroup(changes, added, b);
        GroupStep(changes, added, a, b);
      }
    } else if forall a: nat, b: nat :: IsGroup(changes, added, a, b) ==> GroupKept(changes, added, a, b) {
      var d, t :|
        d in Closed(After(changes, added)) && Covers(d, t) && added <= t && d.status != StatusAt(changes, t);
      var m := Cut(changes, added, t, |changes|);
      KeptIsLogged(changes, added, m);
      var e := ShownAt(changes, added, t, m);
      assert false;
    }
  }

  lemma GroupIsSingle(changes: seq<Change>, added: Time, a: nat, b: nat)
    requires StrictlyOrdered(changes, added) && IsGroup(changes, added, a, b)
    ensures b == a + 1
  {
    var next := a + 1;
    assert next < |changes| ==> Key(changes, added, a) < Key(changes, added, next);
  }

  /** So they do whenever change times strictly increase and follow the addition of the system. */
  lemma DurationsRefineLog(changes: seq<Change>, added: Time)
    requires StrictlyOrdered(changes, added)
    ensures Refines(changes, added)
  {
    forall a: nat, b: nat | IsGroup(changes, added, a, b)
      ensures GroupKept(changes, added, a, b)
    {
      GroupIsSingle(changes, added, a, b);
    }
    RefinesIffGroupsKept(changes, added);
  }

  /** Of two changes at the same time the second one is lost. */
  lemma SimultaneousChangeIsLost(added: Time, t: Time, a: Status, b: Status, c: Status)
    requires added < t && a != b && b != c
    ensures
      var changes := [Change(t, Some(a), b), Change(t, Some(b), c)];
      && StatusAt(changes, t) == c
      && Closed(After(changes, added)) == [Duration(a, added, Some(t)), Duration(b, t, None)]
  {
    var changes := [Change(t, Some(a), b), Change(t, Some(b), c)];
    assert changes[..1] == [changes[0]];
    assert [changes[0]][..0] == [];
    assert After([], added) == State([], None, added);
    assert After([changes[0]], added) == State([Duration(a, added, Some(t))], Some(b), t);
    assert After(changes, added) == State([Duration(a, added, Some(t))], Some(b), t);
  }

  /** A change logged at or before the addition of the system is lost altogether. */
  lemma EarlyChangeIsLost(added: Time, t: Time, a: Status, b: Status)
    requires t <= added && a != b
    ensures
      var changes := [Change(t, Some(a), b)];
      && StatusAt(changes, added) == b
      && Closed(After(changes, added)) == [Duration(a, added, None)]
      && !Refines(changes, added)
  {
    var changes := [Change(t, Some(a), b)];
    assert changes[..0] == [];
    assert After([], added) == State([], None, added);
    assert After(changes, added) == State([], Some(a), added);
    assert Duration(a, added, None) in Closed(After(changes, added));
  }
}
