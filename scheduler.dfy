/**
 * The scheduling engine as an object: the ordered topic list it updates in
 * place and the data file `save_data` rewrites after each successful change.
 */
module Scheduler {
  import opened Wrappers
  import opened Calendar
  import opened CaseFold
  import opened Sorting
  import opened Topics

  /**
   * The data file as `load_data` finds it: missing, holding malformed JSON
   * (the `JSONDecodeError` it catches), or holding a list of records.
   */
  datatype DataFile = Absent | Malformed | Records(records: seq<Topic>)

  /** What `load_data` puts in `self.topics`: a missing file or malformed JSON reads as no topics. */
  function Loaded(f: DataFile): seq<Topic> {
    if f.Records? then f.records else []
  }

  /** Loading the file `save_data` wrote gives back exactly the list that was saved. */
  lemma LoadSaved(ts: seq<Topic>)
    ensures Loaded(Records(ts)) == ts
  {}

  /** What `display_statistics` prints; the average line only for a non-empty list. */
  datatype StatisticsReport = StatisticsReport(
    totalTopics: nat, dueToday: nat, completed: nat, inProgress: nat, average: Option<real>)

  class RevisionScheduler {
    /** `self.topics`, in insertion order. */
    var topics: seq<Topic>
    /** The contents of the data file. */
    var stored: DataFile

    /** The data file holds exactly the in-memory list. */
    predicate Saved()
      reads this
    {
      stored == Records(topics)
    }

    /** `__init__` followed by `load_data`. */
    constructor (file: DataFile)
      ensures topics == Loaded(file)
      ensures stored == file
      ensures file.Records? ==> Saved()
    {
      topics := Loaded(file);
      stored := file;
    }

    /**
     * Appends a new topic due one day after `learned` unless a topic of the
     * same name (ignoring case) exists; saves only on success.
     */
    method AddTopic(name: string, learned: Day) returns (added: bool)
      modifies this
      ensures added <==> forall i :: 0 <= i < |old(topics)| ==> !SameName(old(topics)[i].name, name)
      ensures added == Succeeds(old(topics), Add(name, learned))
      ensures topics == Apply(old(topics), Add(name, learned))
      ensures stored == if added then Records(topics) else old(stored)
      ensures old(Saved()) ==> Saved()
      ensures WellFormed(old(topics)) ==> WellFormed(topics)
    {
      for i := 0 to |topics|
        invariant topics == old(topics) && stored == old(stored)
        invariant forall j :: 0 <= j < i ==> !SameName(topics[j].name, name)
      {
        if Lower(topics[i].name) == Lower(name) {
          return false;
        }
      }
      if WellFormed(topics) {
        ApplyKeepsWellFormed(topics, Add(name, learned));
      }
      var entry := Topic(name, learned, 0, None, None);
      entry := entry.(nextRevision := Some(learned + 1));
      topics := topics + [entry];
      stored := Records(topics);
      return true;
    }

    /**
     * Revises the first topic whose name matches (ignoring case): one more
     * revision, last revised on `revisionDate`, next revision by the
     * interval table. Saves only on success.
     */
    method MarkRevised(name: string, revisionDate: Day) returns (revised: bool)
      modifies this
      ensures revised <==> exists i :: 0 <= i < |old(topics)| && SameName(old(topics)[i].name, name)
      ensures revised == Succeeds(old(topics), Revise(name, revisionDate))
      ensures topics == Apply(old(topics), Revise(name, revisionDate))
      ensures stored == if revised then Records(topics) else old(stored)
      ensures old(Saved()) ==> Saved()
      ensures WellFormed(old(topics)) ==> WellFormed(topics)
    {
      if WellFormed(topics) {
        ApplyKeepsWellFormed(topics, Revise(name, revisionDate));
      }
      for i := 0 to |topics|
        invariant topics == old(topics) && stored == old(stored)
        invariant forall j :: 0 <= j < i ==> !SameName(topics[j].name, name)
      {
        if Lower(topics[i].name) == Lower(name) {
          var topic := topics[i];
          var count := topic.revisionCount + 1;
          var next: Day;
          if count < |Intervals| {
            next := revisionDate + Intervals[count];
          } else {
            next := revisionDate + 180;
          }
          topic := topic.(revisionCount := count, lastRevised := Some(revisionDate), nextRevision := Some(next));
          topics := topics[i := topic];
          stored := Records(topics);
          return true;
        }
      }
      return false;
    }

    /** The topics due on or before `checkDate`, ascending by next revision date. */
    method GetDueTopics(checkDate: Day) returns (due: seq<Topic>)
      ensures due == Due(topics, checkDate)
      ensures forall t :: t in due <==> t in topics && IsDue(t, checkDate)
      ensures SortedBy(due, DueKey)
      ensures |due| <= |topics|
    {
      due := [];
      for i := 0 to |topics|
        invariant due == DueFilter(topics[..i], checkDate)
      {
        var topic := topics[i];
        assert topics[..i + 1][..i] == topics[..i];
        if topic.nextRevision.Some? {
          if topic.nextRevision.value <= checkDate {
            due := due + [topic];
          }
        }
      }
      assert topics[..|topics|] == topics;
      DueExactly(topics, checkDate);
      DueFilterMembers(topics, checkDate);
      assert |SortByKey(due, DueKey)| == |due| by {
        assert |multiset(SortByKey(due, DueKey))| == |multiset(due)|;
      }
      due := SortByKey(due, DueKey);
    }

    /** The revisions due in `[today, today + daysAhead]`, ascending by date. */
    method GetRevisionSchedule(today: Day, daysAhead: int) returns (schedule: seq<ScheduleEntry>)
      ensures schedule == Schedule(topics, today, daysAhead)
      ensures forall e :: e in schedule ==>
        today <= e.date <= today + daysAhead && e.daysFromNow == e.date - today && 0 <= e.daysFromNow <= daysAhead
      ensures SortedBy(schedule, EntryDate)
    {
      var endDate := today + daysAhead;
      schedule := [];
      for i := 0 to |topics|
        invariant schedule == WindowFilter(topics[..i], today, daysAhead)
      {
        var topic := topics[i];
        assert topics[..i + 1][..i] == topics[..i];
        if topic.nextRevision.Some? {
          var nextRevDate := topic.nextRevision.value;
          if today <= nextRevDate <= endDate {
            schedule := schedule + [ScheduleEntry(nextRevDate, topic.name, topic.revisionCount + 1, nextRevDate - today)];
          }
        }
      }
      assert topics[..|topics|] == topics;
      ScheduleExactly(topics, today, daysAhead);
      ScheduleEntries(topics, today, daysAhead);
      schedule := SortByKey(schedule, EntryDate);
    }

    /** A copy of the topic list. */
    method GetAllTopics() returns (all: seq<Topic>)
      ensures all == topics
    {
      all := topics;
    }

    /** Removes the first topic whose name matches (ignoring case); saves only on success. */
    method DeleteTopic(name: string) returns (deleted: bool)
      modifies this
      ensures deleted <==> exists i :: 0 <= i < |old(topics)| && SameName(old(topics)[i].name, name)
      ensures deleted == Succeeds(old(topics), Delete(name))
      ensures topics == Apply(old(topics), Delete(name))
      ensures |topics| == if deleted then |old(topics)| - 1 else |old(topics)|
      ensures stored == if deleted then Records(topics) else old(stored)
      ensures old(Saved()) ==> Saved()
      ensures WellFormed(old(topics)) ==> WellFormed(topics)
    {
      if WellFormed(topics) {
        ApplyKeepsWellFormed(topics, Delete(name));
      }
      for i := 0 to |topics|
        invariant topics == old(topics) && stored == old(stored)
        invariant forall j :: 0 <= j < i ==> !SameName(topics[j].name, name)
      {
        if Lower(topics[i].name) == Lower(name) {
          topics := topics[..i] + topics[i + 1..];
          stored := Records(topics);
          return true;
        }
      }
      return false;
    }

    /** `get_statistics()` on day `today`. */
    method GetStatistics(today: Day) returns (stats: Statistics)
      ensures stats.totalTopics == |topics|
      ensures stats.dueToday == |Due(topics, today)| && stats.dueToday <= stats.totalTopics
      ensures stats.completed == CountCompleted(topics)
      ensures stats.completed + stats.inProgress == stats.totalTopics
      ensures stats.totalTopics == 0 ==> stats.avgRevisions == 0.0
      ensures stats.totalTopics > 0 ==> stats.avgRevisions == SumRevisions(topics) as real / stats.totalTopics as real
    {
      var totalTopics := |topics|;
      var due := GetDueTopics(today);
      var completed := CountCompleted(topics);
      var avg := AverageRevisions(topics);
      stats := Statistics(totalTopics, |due|, completed, totalTopics - completed, avg);
    }

    /** The counts `display_statistics()` prints on day `today`. */
    method DisplayStatistics(today: Day) returns (report: StatisticsReport)
      ensures report.totalTopics == |topics|
      ensures report.dueToday == |Due(topics, today)|
      ensures report.completed == CountCompleted(topics)
      ensures report.completed + report.inProgress == report.totalTopics
      ensures report.average.Some? <==> |topics| > 0
      ensures report.average.Some? ==> report.average.value == SumRevisions(topics) as real / |topics| as real
    {
      var totalTopics := |topics|;
      var due := GetDueTopics(today);
      var completed := CountCompleted(topics);
      var average: Option<real> := None;
      if topics != [] {
        average := Some(AverageRevisions(topics));
      }
      report := StatisticsReport(totalTopics, |due|, completed, totalTopics - completed, average);
    }
  }

  /**
   * A second engine opened on the data file of `s` (the test's persistence
   * check): while `s` is in step with its file, the new engine holds the
   * same topics, in the same order, with the same field values.
   */
  method Reopen(s: RevisionScheduler) returns (r: RevisionScheduler)
    requires s.Saved()
    ensures r.topics == s.topics
    ensures r.stored == s.stored && r.Saved()
  {
    LoadSaved(s.topics);
    r := new RevisionScheduler(s.stored);
  }
}
