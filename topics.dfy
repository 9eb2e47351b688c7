/**
 * The scheduling rules on values: topic records, the interval table, what
 * each operation does to the ordered topic list, what the queries return,
 * and the statistics. The class RevisionScheduler (module Scheduler) is
 * proved against these functions.
 */
module Topics {
  import opened Wrappers
  import opened Calendar
  import opened CaseFold
  import opened Sorting

  /** One record of the data file: `name`, `learned_date`, `revision_count`, `last_revised`, `next_revision`. */
  datatype Topic = Topic(
    name: string,
    learnedDate: Day,
    revisionCount: nat,
    lastRevised: Option<Day>,
    nextRevision: Option<Day>)

  /** `revision_intervals`: 1 day, 7 days, 15 days, 1 month, 3 months, 6 months. */
  const Intervals: seq<nat> := [1, 7, 15, 30, 90, 180]

  /** The gap `mark_revised` schedules, given the revision count after the increment. */
  function NextInterval(count: nat): (gap: nat)
    ensures gap in {1, 7, 15, 30, 90, 180}
    ensures count >= 1 ==> gap >= 7
    ensures count >= 5 ==> gap == 180
  {
    if count < |Intervals| then Intervals[count] else 180
  }

  /** Gaps never shrink: a topic revised more often waits at least as long. */
  lemma NextIntervalMonotone(a: nat, b: nat)
    requires a <= b
    ensures NextInterval(a) <= NextInterval(b)
  {
    if b < |Intervals| {
      assert forall i, j :: 0 <= i <= j < |Intervals| ==> Intervals[i] <= Intervals[j];
    }
  }

  /** The record `add_topic` appends: first revision one day after learning. */
  function NewTopic(name: string, learned: Day): (t: Topic)
    ensures t.name == name && t.learnedDate == learned
    ensures t.revisionCount == 0 && t.lastRevised.None?
    ensures forall d :: IsDue(t, d) <==> d > learned
  {
    Topic(name, learned, 0, None, Some(learned + 1))
  }

  /** The record after `mark_revised` on `date`. */
  function Revised(t: Topic, date: Day): (r: Topic)
    ensures r.name == t.name && r.learnedDate == t.learnedDate
    ensures r.revisionCount == t.revisionCount + 1 && r.lastRevised == Some(date)
    ensures !IsDue(r, date)
    ensures forall d :: IsDue(r, d) <==> d >= date + NextInterval(t.revisionCount + 1)
  {
    var n := t.revisionCount + 1;
    t.(revisionCount := n, lastRevised := Some(date), nextRevision := Some(date + NextInterval(n)))
  }

  /** The index of the first topic whose name equals `name` after lower-casing. */
  function FirstMatch(ts: seq<Topic>, name: string): (r: Option<nat>)
    ensures r.Some? ==> r.value < |ts| && SameName(ts[r.value].name, name)
    ensures r.Some? ==> forall j :: 0 <= j < r.value ==> !SameName(ts[j].name, name)
    ensures r.None? <==> forall j :: 0 <= j < |ts| ==> !SameName(ts[j].name, name)
  {
    if ts == [] then None
    else if SameName(ts[0].name, name) then Some(0)
    else match FirstMatch(ts[1..], name)
      case None => None
      case Some(k) => Some(k + 1)
  }

  /** The operations that change the topic list. */
  datatype Op =
    | Add(name: string, learned: Day)
    | Revise(name: string, date: Day)
    | Delete(name: string)

  /** The boolean each mutator returns. */
  predicate Succeeds(ts: seq<Topic>, op: Op) {
    match op
    case Add(name, _) => FirstMatch(ts, name).None?
    case Revise(name, _) => FirstMatch(ts, name).Some?
    case Delete(name) => FirstMatch(ts, name).Some?
  }

  /** The topic list after an operation; a failed operation leaves it as it was. */
  function Apply(ts: seq<Topic>, op: Op): seq<Topic> {
    match op
    case Add(name, learned) =>
      if FirstMatch(ts, name).None? then ts + [NewTopic(name, learned)] else ts
    case Revise(name, date) =>
      (match FirstMatch(ts, name)
       case None => ts
       case Some(i) => ts[i := Revised(ts[i], date)])
    case Delete(name) =>
      match FirstMatch(ts, name)
      case None => ts
      case Some(i) => ts[..i] + ts[i + 1..]
  }

  /** The topic list after a series of operations, applied left to right. */
  function Run(ts: seq<Topic>, ops: seq<Op>): seq<Topic>
    decreases |ops|
  {
    if ops == [] then ts else Run(Apply(ts, ops[0]), ops[1..])
  }

  /** No two names are equal after lower-casing. */
  predicate UniqueNames(ts: seq<Topic>) {
    forall i, j :: 0 <= i < j < |ts| ==> !SameName(ts[i].name, ts[j].name)
  }

  /** Every topic has a next revision date (so the export's "Completed" never shows). */
  predicate AllScheduled(ts: seq<Topic>) {
    forall i :: 0 <= i < |ts| ==> ts[i].nextRevision.Some?
  }

  /**
   * `next_revision` follows from the revision count and its anchor date by
   * the interval table: one day after learning for a topic never revised,
   * otherwise the table gap after the last revision. It is never set on its own.
   */
  predicate Derived(t: Topic) {
    if t.revisionCount == 0 then t.lastRevised.None? && t.nextRevision == Some(t.learnedDate + 1)
    else t.lastRevised.Some? && t.nextRevision == Some(t.lastRevised.value + NextInterval(t.revisionCount))
  }

  predicate AllDerived(ts: seq<Topic>) {
    forall i :: 0 <= i < |ts| ==> Derived(ts[i])
  }

  predicate WellFormed(ts: seq<Topic>) {
    UniqueNames(ts) && AllScheduled(ts) && AllDerived(ts)
  }

  // ---------------------------------------------------------------------
  // The interval rule

  /**
   * A revision adds one to the count, records the date, and schedules the
   * next one strictly later: 7, 15, 30, 90 or 180 days on. The 1-day entry
   * of the table is never used by a revision.
   */
  lemma RevisionGap(t: Topic, date: Day)
    ensures Revised(t, date).revisionCount == t.revisionCount + 1
    ensures Revised(t, date).lastRevised == Some(date)
    ensures Revised(t, date).name == t.name && Revised(t, date).learnedDate == t.learnedDate
    ensures Revised(t, date).nextRevision.Some?
    ensures Revised(t, date).nextRevision.value - date in {7, 15, 30, 90, 180}
    ensures Revised(t, date).nextRevision.value > date
    ensures t.revisionCount >= 5 ==> Revised(t, date).nextRevision.value == date + 180
  {}

  /** A topic revised on each of `dates` in turn. */
  function ReviseAll(t: Topic, dates: seq<Day>): Topic
    decreases |dates|
  {
    if dates == [] then t else Revised(ReviseAll(t, dates[..|dates| - 1]), dates[|dates| - 1])
  }

  /**
   * From a new topic, the n-th revision schedules the next one 7, 15, 30,
   * 90, 180 days after it for n = 1 to 5, and 180 days after it from then on.
   */
  lemma {:induction false} Progression(name: string, learned: Day, dates: seq<Day>)
    ensures ReviseAll(NewTopic(name, learned), dates).revisionCount == |dates|
    ensures ReviseAll(NewTopic(name, learned), dates).name == name
    ensures ReviseAll(NewTopic(name, learned), dates).learnedDate == learned
    ensures dates == [] ==> ReviseAll(NewTopic(name, learned), dates) == NewTopic(name, learned)
    ensures dates != [] ==>
      var last := dates[|dates| - 1];
      && ReviseAll(NewTopic(name, learned), dates).lastRevised == Some(last)
      && ReviseAll(NewTopic(name, learned), dates).nextRevision
           == Some(last + (if |dates| <= 5 then [7, 15, 30, 90, 180][|dates| - 1] else 180))
    decreases |dates|
  {
    if dates != [] {
      Progression(name, learned, dates[..|dates| - 1]);
    }
  }

  // ---------------------------------------------------------------------
  // Invariants of the mutators

  /** Every operation keeps each topic's next revision derived from its count and anchor date. */
  lemma ApplyKeepsDerived(ts: seq<Topic>, op: Op)
    requires AllDerived(ts)
    ensures AllDerived(Apply(ts, op))
  {
    var r := Apply(ts, op);
    match op
    case Add(name, learned) =>
      if FirstMatch(ts, name).None? {
        assert Derived(r[|ts|]);
        assert forall i :: 0 <= i < |ts| ==> r[i] == ts[i];
      }
    case Revise(name, date) =>
      match FirstMatch(ts, name) {
        case None =>
        case Some(k) =>
          assert Derived(r[k]);
      }
    case Delete(name) =>
      match FirstMatch(ts, name)
      case None =>
      case Some(k) =>
        forall i | 0 <= i < |r| ensures Derived(r[i]) {
          var i' := if i < k then i else i + 1;
          assert r[i] == ts[i'];
        }
  }

  lemma AddKeepsWellFormed(ts: seq<Topic>, name: string, learned: Day)
    requires WellFormed(ts)
    ensures WellFormed(Apply(ts, Add(name, learned)))
  {
    ApplyKeepsDerived(ts, Add(name, learned));
    var r := Apply(ts, Add(name, learned));
    if FirstMatch(ts, name).None? {
      forall i, j | 0 <= i < j < |r| ensures !SameName(r[i].name, r[j].name) {
        if j == |ts| {
          assert r[j].name == name;
        }
      }
    }
  }

  lemma ReviseKeepsWellFormed(ts: seq<Topic>, name: string, date: Day)
    requires WellFormed(ts)
    ensures WellFormed(Apply(ts, Revise(name, date)))
  {
    ApplyKeepsDerived(ts, Revise(name, date));
    var r := Apply(ts, Revise(name, date));
    match FirstMatch(ts, name)
    case None =>
    case Some(k) =>
      assert forall i :: 0 <= i < |r| ==> r[i].name == ts[i].name;
  }

  lemma DeleteKeepsWellFormed(ts: seq<Topic>, name: string)
    requires WellFormed(ts)
    ensures WellFormed(Apply(ts, Delete(name)))
  {
    ApplyKeepsDerived(ts, Delete(name));
    var r := Apply(ts, Delete(name));
    match FirstMatch(ts, name)
    case None =>
    case Some(k) =>
      forall i, j | 0 <= i < j < |r| ensures !SameName(r[i].name, r[j].name) {
        var i', j' := if i < k then i else i + 1, if j < k then j else j + 1;
        assert r[i] == ts[i'] && r[j] == ts[j'];
      }
      forall i | 0 <= i < |r| ensures r[i].nextRevision.Some? {
        var i' := if i < k then i else i + 1;
        assert r[i] == ts[i'];
      }
  }

  /** An operation keeps names unique, every topic scheduled, and every next revision derived. */
  lemma ApplyKeepsWellFormed(ts: seq<Topic>, op: Op)
    requires WellFormed(ts)
    ensures WellFormed(Apply(ts, op))
  {
    match op
    case Add(name, learned) => AddKeepsWellFormed(ts, name, learned);
    case Revise(name, date) => ReviseKeepsWellFormed(ts, name, date);
    case Delete(name) => DeleteKeepsWellFormed(ts, name);
  }

  /** Every series of operations keeps the list well formed. */
  lemma {:induction false} RunKeepsWellFormed(ts: seq<Topic>, ops: seq<Op>)
    requires WellFormed(ts)
    ensures WellFormed(Run(ts, ops))
    decreases |ops|
  {
    if ops != [] {
      ApplyKeepsWellFormed(ts, ops[0]);
      RunKeepsWellFormed(Apply(ts, ops[0]), ops[1..]);
    }
  }

  /**
   * The revision count of a topic (identified by its name) only changes by
   * `mark_revised`, and then by exactly one; no operation lowers it.
   */
  lemma CountsOnlyGrow(ts: seq<Topic>, op: Op)
    requires UniqueNames(ts)
    ensures forall i, j :: 0 <= i < |ts| && 0 <= j < |Apply(ts, op)| && SameName(ts[i].name, Apply(ts, op)[j].name) ==>
      Apply(ts, op)[j].revisionCount
        == ts[i].revisionCount + (if op.Revise? && SameName(ts[i].name, op.name) then 1 else 0)
  {
    var r := Apply(ts, op);
    forall i, j | 0 <= i < |ts| && 0 <= j < |r| && SameName(ts[i].name, r[j].name)
      ensures r[j].revisionCount == ts[i].revisionCount + (if op.Revise? && SameName(ts[i].name, op.name) then 1 else 0)
    {
      match op
      case Add(name, learned) =>
        if FirstMatch(ts, name).None? && j == |ts| {
          assert false;
        }
        assert r[j] == ts[j];
        assert i == j;
      case Revise(name, date) =>
        assert r[j].name == ts[j].name;
        assert i == j;
      case Delete(name) =>
        match FirstMatch(ts, name)
        case None =>
          assert i == j;
        case Some(k) =>
          var j' := if j < k then j else j + 1;
          assert r[j] == ts[j'];
          assert i == j';
    }
  }

  /**
   * `mark_revised` changes only the first topic whose name matches, and
   * changes it to its revised record; on no match the list is unchanged.
   */
  lemma ReviseTouchesFirstMatch(ts: seq<Topic>, name: string, date: Day)
    ensures |Apply(ts, Revise(name, date))| == |ts|
    ensures FirstMatch(ts, name).None? ==> Apply(ts, Revise(name, date)) == ts
    ensures FirstMatch(ts, name).Some? ==>
      var k := FirstMatch(ts, name).value;
      && Apply(ts, Revise(name, date))[k] == Revised(ts[k], date)
      && forall i :: 0 <= i < |ts| && i != k ==> Apply(ts, Revise(name, date))[i] == ts[i]
  {}

  /**
   * `delete_topic` removes exactly one topic, the first whose name matches,
   * keeping the others in order; with unique names, no topic of that name
   * is left. On no match the list is unchanged.
   */
  lemma DeleteRemovesFirstMatch(ts: seq<Topic>, name: string)
    ensures FirstMatch(ts, name).None? ==> Apply(ts, Delete(name)) == ts
    ensures FirstMatch(ts, name).Some? ==>
      var k := FirstMatch(ts, name).value;
      && |Apply(ts, Delete(name))| == |ts| - 1
      && Apply(ts, Delete(name))[..k] == ts[..k]
      && Apply(ts, Delete(name))[k..] == ts[k + 1..]
    ensures UniqueNames(ts) ==>
      forall i :: 0 <= i < |Apply(ts, Delete(name))| ==> !SameName(Apply(ts, Delete(name))[i].name, name)
  {
    var r := Apply(ts, Delete(name));
    match FirstMatch(ts, name)
    case None =>
    case Some(k) =>
      assert r[..k] == ts[..k];
      assert r[k..] == ts[k + 1..];
      if UniqueNames(ts) {
        forall i | 0 <= i < |r| ensures !SameName(r[i].name, name) {
          var i' := if i < k then i else i + 1;
          assert r[i] == ts[i'];
        }
      }
  }

  /**
   * `add_topic` succeeds exactly when no name matches; it then appends one
   * record at the end and leaves the earlier ones as they were.
   */
  lemma AddAppendsNew(ts: seq<Topic>, name: string, learned: Day)
    ensures Succeeds(ts, Add(name, learned)) <==> forall i :: 0 <= i < |ts| ==> !SameName(ts[i].name, name)
    ensures Succeeds(ts, Add(name, learned)) ==>
      && |Apply(ts, Add(name, learned))| == |ts| + 1
      && Apply(ts, Add(name, learned))[..|ts|] == ts
      && Apply(ts, Add(name, learned))[|ts|] == Topic(name, learned, 0, None, Some(learned + 1))
    ensures !Succeeds(ts, Add(name, learned)) ==> Apply(ts, Add(name, learned)) == ts
  {
    if Succeeds(ts, Add(name, learned)) {
      assert (ts + [NewTopic(name, learned)])[..|ts|] == ts;
    }
  }

  // ---------------------------------------------------------------------
  // get_due_topics

  /** `next_revision` is present and on or before `date`. */
  predicate IsDue(t: Topic, date: Day) {
    t.nextRevision.Some? && t.nextRevision.value <= date
  }

  /** The sort key `x['next_revision']` as a day number. */
  function DueKey(t: Topic): int {
    match t.nextRevision
    case Some(d) => d
    case None => 0
  }

  /** The due topics in list order (the loop that builds `due_topics`). */
  function DueFilter(ts: seq<Topic>, date: Day): seq<Topic>
    decreases |ts|
  {
    if ts == [] then []
    else DueFilter(ts[..|ts| - 1], date) + (if IsDue(ts[|ts| - 1], date) then [ts[|ts| - 1]] else [])
  }

  /** What `get_due_topics(date)` returns. */
  function Due(ts: seq<Topic>, date: Day): (due: seq<Topic>)
    ensures |due| <= |ts|
    ensures forall t :: t in due ==> t in ts && IsDue(t, date)
  {
    DueFilterMembers(ts, date);
    var due := SortByKey(DueFilter(ts, date), DueKey);
    assert |multiset(due)| == |multiset(DueFilter(ts, date))|;
    assert forall t :: t in due ==> t in multiset(DueFilter(ts, date));
    due
  }

  lemma {:induction false} DueFilterMembers(ts: seq<Topic>, date: Day)
    ensures forall t :: t in DueFilter(ts, date) <==> t in ts && IsDue(t, date)
    ensures |DueFilter(ts, date)| <= |ts|
    decreases |ts|
  {
    if ts != [] {
      var init := ts[..|ts| - 1];
      DueFilterMembers(init, date);
      assert ts == init + [ts[|ts| - 1]];
    }
  }

  /**
   * `get_due_topics(date)` returns exactly the topics due on or before
   * `date` (inclusive), ascending by next revision date, topics due on the
   * same day in list order.
   */
  lemma DueExactly(ts: seq<Topic>, date: Day)
    ensures forall t :: t in Due(ts, date) <==> t in ts && IsDue(t, date)
    ensures multiset(Due(ts, date)) == multiset(DueFilter(ts, date))
    ensures SortedBy(Due(ts, date), DueKey)
    ensures forall k :: WithKey(Due(ts, date), DueKey, k) == WithKey(DueFilter(ts, date), DueKey, k)
  {
    DueFilterMembers(ts, date);
    SortSorted(DueFilter(ts, date), DueKey);
    forall k ensures WithKey(Due(ts, date), DueKey, k) == WithKey(DueFilter(ts, date), DueKey, k) {
      SortStable(DueFilter(ts, date), DueKey, k);
    }
    forall t ensures t in Due(ts, date) <==> t in DueFilter(ts, date) {
      assert t in Due(ts, date) <==> t in multiset(Due(ts, date));
    }
  }

  // ---------------------------------------------------------------------
  // get_revision_schedule

  /** One row of the schedule: `date`, `topic`, `revision_number`, `days_from_now`. */
  datatype ScheduleEntry = ScheduleEntry(date: Day, topic: string, revisionNumber: nat, daysFromNow: int)

  /** `today <= next_rev_date <= today + days_ahead`. */
  predicate InWindow(t: Topic, today: Day, daysAhead: int) {
    t.nextRevision.Some? && today <= t.nextRevision.value <= today + daysAhead
  }

  function EntryOf(t: Topic, today: Day): ScheduleEntry
    requires t.nextRevision.Some?
  {
    ScheduleEntry(t.nextRevision.value, t.name, t.revisionCount + 1, t.nextRevision.value - today)
  }

  function EntryDate(e: ScheduleEntry): int {
    e.date
  }

  /** The entries in list order (the loop that builds `schedule`). */
  function WindowFilter(ts: seq<Topic>, today: Day, daysAhead: int): seq<ScheduleEntry>
    decreases |ts|
  {
    if ts == [] then []
    else
      var t := ts[|ts| - 1];
      WindowFilter(ts[..|ts| - 1], today, daysAhead) + (if InWindow(t, today, daysAhead) then [EntryOf(t, today)] else [])
  }

  /** What `get_revision_schedule(days_ahead)` returns on day `today`. */
  function Schedule(ts: seq<Topic>, today: Day, daysAhead: int): (schedule: seq<ScheduleEntry>)
    ensures forall e :: e in schedule ==>
      exists i :: 0 <= i < |ts| && InWindow(ts[i], today, daysAhead) && e == EntryOf(ts[i], today)
  {
    WindowFilterMembers(ts, today, daysAhead);
    var schedule := SortByKey(WindowFilter(ts, today, daysAhead), EntryDate);
    assert forall e :: e in schedule ==> e in multiset(WindowFilter(ts, today, daysAhead));
    assert forall e :: e in schedule ==> e in WindowFilter(ts, today, daysAhead);
    schedule
  }

  lemma {:induction false} WindowFilterMembers(ts: seq<Topic>, today: Day, daysAhead: int)
    ensures forall e :: e in WindowFilter(ts, today, daysAhead) <==>
      exists i :: 0 <= i < |ts| && InWindow(ts[i], today, daysAhead) && e == EntryOf(ts[i], today)
    decreases |ts|
  {
    if ts != [] {
      var n := |ts| - 1;
      var init := ts[..n];
      WindowFilterMembers(init, today, daysAhead);
      forall e ensures e in WindowFilter(ts, today, daysAhead) <==>
        exists i :: 0 <= i < |ts| && InWindow(ts[i], today, daysAhead) && e == EntryOf(ts[i], today)
      {
        if e in WindowFilter(init, today, daysAhead) {
          var i :| 0 <= i < |init| && InWindow(init[i], today, daysAhead) && e == EntryOf(init[i], today);
          assert ts[i] == init[i];
        }
        if exists i :: 0 <= i < |ts| && InWindow(ts[i], today, daysAhead) && e == EntryOf(ts[i], today) {
          var i :| 0 <= i < |ts| && InWindow(ts[i], today, daysAhead) && e == EntryOf(ts[i], today);
          if i < n {
            assert init[i] == ts[i];
          }
        }
      }
    }
  }

  /**
   * The schedule holds one entry per topic due in `[today, today + daysAhead]`
   * (overdue topics are left out), projected by EntryOf, ascending by date.
   */
  lemma ScheduleExactly(ts: seq<Topic>, today: Day, daysAhead: int)
    ensures forall e :: e in Schedule(ts, today, daysAhead) <==>
      exists i :: 0 <= i < |ts| && InWindow(ts[i], today, daysAhead) && e == EntryOf(ts[i], today)
    ensures multiset(Schedule(ts, today, daysAhead)) == multiset(WindowFilter(ts, today, daysAhead))
    ensures SortedBy(Schedule(ts, today, daysAhead), EntryDate)
  {
    WindowFilterMembers(ts, today, daysAhead);
    SortSorted(WindowFilter(ts, today, daysAhead), EntryDate);
    forall e ensures e in Schedule(ts, today, daysAhead) <==> e in WindowFilter(ts, today, daysAhead) {
      assert e in Schedule(ts, today, daysAhead) <==> e in multiset(Schedule(ts, today, daysAhead));
    }
  }

  /**
   * Every topic in the window gets an entry with its date, its name,
   * revision number = count + 1 and days from now = date - today; every
   * entry lies in the window, with 0 <= days from now <= daysAhead.
   */
  lemma ScheduleEntries(ts: seq<Topic>, today: Day, daysAhead: int)
    ensures forall i :: 0 <= i < |ts| && InWindow(ts[i], today, daysAhead) ==>
      ScheduleEntry(ts[i].nextRevision.value, ts[i].name, ts[i].revisionCount + 1, ts[i].nextRevision.value - today)
        in Schedule(ts, today, daysAhead)
    ensures forall e :: e in Schedule(ts, today, daysAhead) ==>
      && today <= e.date <= today + daysAhead
      && e.daysFromNow == e.date - today
      && 0 <= e.daysFromNow <= daysAhead
      && e.revisionNumber >= 1
  {
    ScheduleExactly(ts, today, daysAhead);
    forall e | e in Schedule(ts, today, daysAhead)
      ensures today <= e.date <= today + daysAhead && e.daysFromNow == e.date - today && e.revisionNumber >= 1
    {
      var i :| 0 <= i < |ts| && InWindow(ts[i], today, daysAhead) && e == EntryOf(ts[i], today);
    }
  }

  // ---------------------------------------------------------------------
  // Statistics

  /** `sum(1 for topic in topics if topic['revision_count'] >= 6)`. */
  function CountCompleted(ts: seq<Topic>): (n: nat)
    ensures n <= |ts|
    decreases |ts|
  {
    if ts == [] then 0
    else CountCompleted(ts[..|ts| - 1]) + (if ts[|ts| - 1].revisionCount >= 6 then 1 else 0)
  }

  /** `sum(topic['revision_count'] for topic in topics)`. */
  function SumRevisions(ts: seq<Topic>): (sum: nat)
    ensures forall i :: 0 <= i < |ts| ==> ts[i].revisionCount <= sum
    ensures sum == 0 <==> forall i :: 0 <= i < |ts| ==> ts[i].revisionCount == 0
    decreases |ts|
  {
    if ts == [] then 0 else SumRevisions(ts[..|ts| - 1]) + ts[|ts| - 1].revisionCount
  }

  /** The mean revision count, 0 for an empty list (as an exact rational). */
  function AverageRevisions(ts: seq<Topic>): (r: real)
    ensures |ts| == 0 ==> r == 0.0
    ensures |ts| > 0 ==> r * |ts| as real == SumRevisions(ts) as real
  {
    if |ts| > 0 then SumRevisions(ts) as real / |ts| as real else 0.0
  }

  /** The fields of `get_statistics()`. */
  datatype Statistics = Statistics(totalTopics: nat, dueToday: nat, completed: nat, inProgress: nat, avgRevisions: real)

  /**
   * "Completed" counts the topics with six or more revisions: all of them
   * exactly when every topic has six, none exactly when none has; and the
   * completed topics alone account for at least six revisions each.
   */
  lemma {:induction false} CompletedCount(ts: seq<Topic>)
    ensures CountCompleted(ts) == |ts| <==> forall i :: 0 <= i < |ts| ==> ts[i].revisionCount >= 6
    ensures CountCompleted(ts) == 0 <==> forall i :: 0 <= i < |ts| ==> ts[i].revisionCount < 6
    ensures SumRevisions(ts) >= 6 * CountCompleted(ts)
    decreases |ts|
  {
    if ts != [] {
      var init := ts[..|ts| - 1];
      CompletedCount(init);
      assert forall i :: 0 <= i < |init| ==> init[i] == ts[i];
    }
  }
}
