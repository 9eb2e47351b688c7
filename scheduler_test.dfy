/**
 * The scenario of `test_revision_scheduler`: two topics, a rejected
 * duplicate, the first two due dates, a full revision cycle over fixed
 * dates, and a reload from the data file.
 */
module SchedulerTest {
  import opened Wrappers
  import opened Calendar
  import opened CaseFold
  import opened DateText
  import opened Topics
  import opened Scheduler

  /** `test_dates`: the days "Data Structures" is revised on. */
  const TestDates: seq<string> :=
    ["2025-10-03", "2025-10-10", "2025-10-25", "2025-11-24", "2026-02-22", "2026-08-21"]

  /** `expected_next_dates`: the next revision expected after each of them. */
  const ExpectedNextDates: seq<string> :=
    ["2025-10-10", "2025-10-25", "2025-11-24", "2026-02-22", "2026-08-21", "2027-02-17"]

  /** The first topic whose name is exactly `name` (the test's `next(... if t['name'] == name)`). */
  function FindNamed(ts: seq<Topic>, name: string): (r: Option<Topic>)
    ensures r.Some? ==> exists k :: 0 <= k < |ts| && ts[k] == r.value && forall j :: 0 <= j < k ==> ts[j].name != name
    ensures r.Some? ==> r.value.name == name
    ensures r.None? <==> forall i :: 0 <= i < |ts| ==> ts[i].name != name
  {
    if ts == [] then None
    else if ts[0].name == name then Some(ts[0])
    else
      var r := FindNamed(ts[1..], name);
      assert r.Some? ==> exists k :: 0 < k < |ts| && ts[k] == r.value && forall j :: 0 <= j < k ==> ts[j].name != name by {
        if r.Some? {
          var k :| 0 <= k < |ts[1..]| && ts[1..][k] == r.value && forall j :: 0 <= j < k ==> ts[1..][j].name != name;
          assert ts[k + 1] == r.value;
          assert forall j :: 0 <= j < k + 1 ==> ts[j].name != name by {
            forall j | 0 <= j < k + 1 ensures ts[j].name != name {
              if j > 0 { assert ts[j] == ts[1..][j - 1]; }
            }
          }
        }
      }
      r
  }

  /** The same dates as civil dates. */
  const TestDays: seq<Date> :=
    [Date(2025, 10, 3), Date(2025, 10, 10), Date(2025, 10, 25), Date(2025, 11, 24), Date(2026, 2, 22), Date(2026, 8, 21)]

  const ExpectedNextDays: seq<Date> :=
    [Date(2025, 10, 10), Date(2025, 10, 25), Date(2025, 11, 24), Date(2026, 2, 22), Date(2026, 8, 21), Date(2027, 2, 17)]

  /** And as day numbers (`date.toordinal()`). */
  const TestDayNumbers: seq<Day> := [739527, 739534, 739549, 739579, 739669, 739849]

  const ExpectedDayNumbers: seq<Day> := [739534, 739549, 739579, 739669, 739849, 740029]

  /** The civil dates are valid, and their `YYYY-MM-DD` texts are the test's `test_dates`. */
  lemma TestDayTexts()
    ensures |TestDays| == |TestDates| == 6
    ensures forall i :: 0 <= i < 6 ==> ValidDate(TestDays[i]) && Format(TestDays[i]) == TestDates[i]
  {}

  /** The same for `expected_next_dates`. */
  lemma ExpectedDayTexts()
    ensures |ExpectedNextDays| == |ExpectedNextDates| == 6
    ensures forall i :: 0 <= i < 6 ==> ValidDate(ExpectedNextDays[i]) && Format(ExpectedNextDays[i]) == ExpectedNextDates[i]
  {}

  /** The day numbers of `test_dates`. */
  lemma TestDayNumbersAgree()
    ensures forall i :: 0 <= i < 6 ==> ValidDate(TestDays[i]) && ToOrdinal(TestDays[i]) == TestDayNumbers[i]
  {
    forall i | 0 <= i < 6
      ensures ValidDate(TestDays[i]) && ToOrdinal(TestDays[i]) == TestDayNumbers[i]
    {
      if i == 0 {
        assert TestDays[0] == Date(2025, 10, 3);
      } else if i == 1 {
        assert TestDays[1] == Date(2025, 10, 10);
      } else if i == 2 {
        assert TestDays[2] == Date(2025, 10, 25);
      } else if i == 3 {
        assert TestDays[3] == Date(2025, 11, 24);
      } else if i == 4 {
        assert TestDays[4] == Date(2026, 2, 22);
      } else {
        assert TestDays[5] == Date(2026, 8, 21);
      }
    }
  }

  /** The day numbers of `expected_next_dates`. */
  lemma ExpectedDayNumbersAgree()
    ensures forall i :: 0 <= i < 6 ==> ValidDate(ExpectedNextDays[i]) && ToOrdinal(ExpectedNextDays[i]) == ExpectedDayNumbers[i]
  {
    forall i | 0 <= i < 6
      ensures ValidDate(ExpectedNextDays[i]) && ToOrdinal(ExpectedNextDays[i]) == ExpectedDayNumbers[i]
    {
      if i == 0 {
        assert ExpectedNextDays[0] == Date(2025, 10, 10);
      } else if i == 1 {
        assert ExpectedNextDays[1] == Date(2025, 10, 25);
      } else if i == 2 {
        assert ExpectedNextDays[2] == Date(2025, 11, 24);
      } else if i == 3 {
        assert ExpectedNextDays[3] == Date(2026, 2, 22);
      } else if i == 4 {
        assert ExpectedNextDays[4] == Date(2026, 8, 21);
      } else {
        assert ExpectedNextDays[5] == Date(2027, 2, 17);
      }
    }
  }

  /**
   * Each expected next date is the interval of the (i+1)-th revision after
   * the i-th test date: 7, 15, 30, 90, 180 and 180 days.
   */
  lemma CycleVectors()
    ensures forall i :: 0 <= i < 6 ==> ExpectedDayNumbers[i] == TestDayNumbers[i] + NextInterval(i + 1)
  {}

  /** Next dates read back after revising on `test_dates` are the `expected_next_dates`. */
  lemma CycleMatchesExpected(cycle: seq<Option<Day>>)
    requires |cycle| == |TestDayNumbers|
    requires forall i :: 0 <= i < |TestDayNumbers| ==> cycle[i] == Some(TestDayNumbers[i] + NextInterval(i + 1))
    ensures forall i :: 0 <= i < 6 ==> cycle[i] == Some(ExpectedDayNumbers[i])
  {
    CycleVectors();
  }

  /**
   * "Python Basics": learned on 2025-10-01, first due on 2025-10-02, revised
   * then, and next due on 2025-10-09.
   */
  lemma FirstDueVectors()
    ensures ToOrdinal(Date(2025, 10, 1)) == 739525
    ensures ToOrdinal(Date(2025, 10, 2)) == 739526 && Format(Date(2025, 10, 2)) == "2025-10-02"
    ensures ToOrdinal(Date(2025, 10, 9)) == 739533 && Format(Date(2025, 10, 9)) == "2025-10-09"
  {}

  /** The two test names differ after lower-casing; each matches itself. */
  lemma TestNames()
    ensures !SameName("Python Basics", "Data Structures")
  {
    assert Lower("Python Basics")[0] == 'p' && Lower("Data Structures")[0] == 'd';
  }

  /** In a two-topic list of distinct names, each name matches its own record. */
  lemma TwoMatches(p: Topic, d: Topic)
    requires !SameName(p.name, d.name)
    ensures FirstMatch([p], p.name) == Some(0)
    ensures FirstMatch([p], d.name).None?
    ensures FirstMatch([p, d], p.name) == Some(0)
    ensures FirstMatch([p, d], d.name) == Some(1)
  {
    assert [p, d][1..] == [d];
    assert FirstMatch([d], d.name) == Some(0);
  }

  /** `FindNamed` compares exactly: each name finds its own record. */
  lemma TwoFinds(p: Topic, d: Topic)
    requires p.name != d.name
    ensures FindNamed([p, d], p.name) == Some(p)
    ensures FindNamed([p, d], d.name) == Some(d)
  {
    assert [p, d][1..] == [d];
  }

  /** Revising the second of two differently named topics touches that record only. */
  lemma CycleStep(p: Topic, d: Topic, date: Day)
    requires !SameName(p.name, d.name)
    ensures Succeeds([p, d], Revise(d.name, date))
    ensures Apply([p, d], Revise(d.name, date)) == [p, Revised(d, date)]
    ensures FindNamed([p, Revised(d, date)], d.name) == Some(Revised(d, date))
  {
    TwoMatches(p, d);
    TwoFinds(p, Revised(d, date));
  }

  /** Test 1 and the first revision of the first topic, on the pure model. */
  lemma SetupSteps(name1: string, learned1: Day, name2: string, learned2: Day)
    requires !SameName(name1, name2)
    ensures var p := NewTopic(name1, learned1);
      var d := NewTopic(name2, learned2);
      && Succeeds([], Add(name1, learned1))
      && Apply([], Add(name1, learned1)) == [p]
      && Succeeds([p], Add(name2, learned2))
      && Apply([p], Add(name2, learned2)) == [p, d]
      && !Succeeds([p, d], Add(name1, learned1))
      && Apply([p, d], Add(name1, learned1)) == [p, d]
      && Apply([p, d], Revise(name1, learned2)) == [Revised(p, learned2), d]
      && FindNamed([p, d], name1) == Some(p)
      && FindNamed([Revised(p, learned2), d], name1) == Some(Revised(p, learned2))
  {
    var p := NewTopic(name1, learned1);
    var d := NewTopic(name2, learned2);
    TwoMatches(p, d);
    TwoFinds(p, d);
    TwoFinds(Revised(p, learned2), d);
    assert [] + [p] == [p];
    assert [p] + [d] == [p, d];
  }

  /** Two topics neither of which is due give an empty due list. */
  lemma NoneDue(p: Topic, d: Topic, date: Day)
    requires !IsDue(p, date) && !IsDue(d, date)
    ensures Due([p, d], date) == []
  {
    assert [p, d][..1] == [p];
    assert [p][..0] == [];
    assert DueFilter([p], date) == [];
    assert DueFilter([p, d], date) == [];
  }

  /** Tests 1 and 2: two topics added, a duplicate refused, the first due date read back. */
  method AddTopics(scheduler: RevisionScheduler, python: string, october1: Day, structures: string, october2: Day)
    returns (success1: bool, success2: bool, success3: bool, firstRevision: Option<Day>)
    requires scheduler.topics == []
    requires !SameName(python, structures)
    modifies scheduler
    ensures success1 && success2 && !success3
    ensures firstRevision == Some(october1 + 1)
    ensures scheduler.topics == [NewTopic(python, october1), NewTopic(structures, october2)]
    ensures scheduler.Saved()
  {
    // Test 1: adding topics
    SetupSteps(python, october1, structures, october2);
    success1 := scheduler.AddTopic(python, october1);
    success2 := scheduler.AddTopic(structures, october2);
    success3 := scheduler.AddTopic(python, october1);

    // Test 2: first revision date
    var found := FindNamed(scheduler.topics, python);
    firstRevision := if found.Some? then found.value.nextRevision else None;
  }

  /** Test 3: the first topic revised on `october2`; the call's success and its next due date read back. */
  method ReviseFirst(scheduler: RevisionScheduler, python: string, october1: Day, structures: string, october2: Day)
    returns (revised: bool, secondRevision: Option<Day>)
    requires scheduler.topics == [NewTopic(python, october1), NewTopic(structures, october2)]
    requires scheduler.Saved()
    requires !SameName(python, structures)
    modifies scheduler
    ensures revised
    ensures secondRevision == Some(october2 + 7)
    ensures scheduler.topics == [Revised(NewTopic(python, october1), october2), NewTopic(structures, october2)]
    ensures scheduler.Saved()
  {
    SetupSteps(python, october1, structures, october2);
    revised := scheduler.MarkRevised(python, october2);
    var found := FindNamed(scheduler.topics, python);
    secondRevision := if found.Some? then found.value.nextRevision else None;
  }

  /** Test 5: the second topic revised on each of `testDays`; each next date is read back. */
  method RevisionCycle(scheduler: RevisionScheduler, structures: string, testDays: seq<Day>) returns (cycle: seq<Option<Day>>)
    requires |scheduler.topics| == 2 && scheduler.Saved()
    requires scheduler.topics[1].name == structures && scheduler.topics[1].revisionCount == 0
    requires !SameName(scheduler.topics[0].name, structures)
    modifies scheduler
    ensures |scheduler.topics| == 2 && scheduler.Saved()
    ensures |cycle| == |testDays| && forall i :: 0 <= i < |testDays| ==> cycle[i] == Some(testDays[i] + NextInterval(i + 1))
  {
    var first := scheduler.topics[0];
    cycle := [];
    for i := 0 to |testDays|
      invariant |scheduler.topics| == 2 && scheduler.topics[0] == first && scheduler.Saved()
      invariant scheduler.topics[1].name == structures && scheduler.topics[1].revisionCount == i
      invariant |cycle| == i && forall k :: 0 <= k < i ==> cycle[k] == Some(testDays[k] + NextInterval(k + 1))
    {
      var revisionDate := testDays[i];
      CycleStep(first, scheduler.topics[1], revisionDate);
      assert scheduler.topics == [first, scheduler.topics[1]];
      var ok := scheduler.MarkRevised(structures, revisionDate);
      var found := FindNamed(scheduler.topics, structures);
      var actualNext := if found.Some? then found.value.nextRevision else None;
      assert actualNext == Some(revisionDate + NextInterval(i + 1));
      cycle := cycle + [actualNext];
    }
  }

  /**
   * `test_revision_scheduler` with its names and dates as parameters: topic
   * `python` learned on `october1`, topic `structures` on `october2`, and
   * the second topic revised on each of `testDays` in turn.
   */
  method Scenario(python: string, october1: Day, structures: string, october2: Day, testDays: seq<Day>) returns (
    success1: bool, success2: bool, success3: bool,
    firstRevision: Option<Day>, revised: bool, secondRevision: Option<Day>,
    dueCount: nat, cycle: seq<Option<Day>>,
    originalCount: nat, loadedCount: nat, savedTopics: seq<Topic>, loadedTopics: seq<Topic>)
    requires !SameName(python, structures)
    ensures success1 && success2 && !success3
    ensures revised
    ensures firstRevision == Some(october1 + 1)
    ensures secondRevision == Some(october2 + 7)
    ensures dueCount == 0
    ensures |cycle| == |testDays| && forall i :: 0 <= i < |testDays| ==> cycle[i] == Some(testDays[i] + NextInterval(i + 1))
    ensures originalCount == loadedCount == 2
    ensures loadedTopics == savedTopics && originalCount == |savedTopics|
  {
    var scheduler := new RevisionScheduler(Absent);
    success1, success2, success3, firstRevision := AddTopics(scheduler, python, october1, structures, october2);
    revised, secondRevision := ReviseFirst(scheduler, python, october1, structures, october2);

    // Test 4: due topics
    var p := NewTopic(python, october1);
    RevisionGap(p, october2);
    NoneDue(Revised(p, october2), NewTopic(structures, october2), october2);
    var due := scheduler.GetDueTopics(october2);
    dueCount := |due|;

    // Test 5: complete revision cycle
    cycle := RevisionCycle(scheduler, structures, testDays);

    // Test 6: data persistence
    savedTopics := scheduler.topics;
    originalCount := |savedTopics|;
    var reloaded := Reopen(scheduler);
    loadedTopics := reloaded.topics;
    loadedCount := |loadedTopics|;
  }

  /**
   * The test's assertions on its own dates, as day numbers: 739526 is
   * 2025-10-02 and 739533 is 2025-10-09 (FirstDueVectors), and
   * ExpectedDayNumbers are the days of `expected_next_dates`
   * (ExpectedDayNumbersAgree, ExpectedDayTexts).
   */
  method TestRevisionScheduler() returns (
    success1: bool, success2: bool, success3: bool,
    firstRevision: Option<Day>, revised: bool, secondRevision: Option<Day>,
    dueCount: nat, cycle: seq<Option<Day>>,
    originalCount: nat, loadedCount: nat)
    ensures success1 && success2 && !success3
    ensures revised
    ensures firstRevision == Some(739526)
    ensures secondRevision == Some(739533)
    ensures dueCount == 0
    ensures |cycle| == 6 && forall i :: 0 <= i < 6 ==> cycle[i] == Some(ExpectedDayNumbers[i])
    ensures originalCount == loadedCount == 2
  {
    TestNames();
    var savedTopics, loadedTopics;
    success1, success2, success3, firstRevision, revised, secondRevision, dueCount, cycle, originalCount, loadedCount, savedTopics, loadedTopics :=
      Scenario("Python Basics", 739525, "Data Structures", 739526, TestDayNumbers);
    CycleMatchesExpected(cycle);
  }
}
