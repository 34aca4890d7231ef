/**
 * The test history kept in the browser's storage: saving a finished test in
 * front of the list, reading the list back with fallbacks for missing or
 * malformed data, ordering it newest first, and the per-duration personal
 * bests.
 *
 * The stored JSON text is modelled by what parsing it yields (`Stored`), dates
 * by their millisecond timestamps, and the outcome of the storage write by a
 * flag.
 */
module Storage {
  import opened Wrappers
  import opened Numbers

  /** One saved test. `date` is the finishing time in milliseconds since the epoch. */
  datatype Record = Record(
    testId: int,
    date: int,
    duration: int,
    wpm: real,
    accuracy: real,
    consistency: real,
    charactersTyped: int,
    wpmData: seq<int>)

  /** A result as handed to `save`; the identifier, date and samples may be missing. */
  datatype Submission = Submission(
    testId: Option<int>,
    date: Option<int>,
    duration: int,
    wpm: real,
    accuracy: real,
    consistency: real,
    charactersTyped: int,
    wpmData: Option<seq<int>>)

  /** What reading the storage key gives: nothing (or an empty string), text
      that does not parse, a parsed value that is not an array, or the list. */
  datatype Stored = Absent | Unparseable | NotAnArray | Array(records: seq<Record>)

  /** The stored list, or the empty list whenever there is no usable one. */
  function HistoryRaw(stored: Stored): (h: seq<Record>)
    ensures stored.Array? ==> h == stored.records
    ensures !stored.Array? ==> h == []
  {
    match stored
    case Array(records) => records
    case _ => []
  }

  /** The record `save` builds: missing identifier and date fall back to the
      current time, missing samples to the empty series. */
  function MakeRecord(result: Submission, nowMs: int): (r: Record)
    ensures result.testId.Some? && result.date.Some? && result.wpmData.Some? ==>
      AsSubmission(r) == result
  {
    Record(
      testId := result.testId.GetOr(nowMs),
      date := result.date.GetOr(nowMs),
      duration := result.duration,
      wpm := result.wpm,
      accuracy := result.accuracy,
      consistency := result.consistency,
      charactersTyped := result.charactersTyped,
      wpmData := result.wpmData.GetOr([]))
  }

  /** A record handed back to `save` with every field present. */
  function AsSubmission(r: Record): Submission {
    Submission(Some(r.testId), Some(r.date), r.duration, r.wpm, r.accuracy,
               r.consistency, r.charactersTyped, Some(r.wpmData))
  }

  /** Building a record copies every field that is present and invents nothing. */
  lemma MakeRecordCopies(result: Submission, nowMs: int)
    ensures var r := MakeRecord(result, nowMs);
      && (result.testId.Some? ==> r.testId == result.testId.value)
      && (result.testId.None? ==> r.testId == nowMs)
      && (result.date.Some? ==> r.date == result.date.value)
      && (result.date.None? ==> r.date == nowMs)
      && r.duration == result.duration && r.wpm == result.wpm
      && r.accuracy == result.accuracy && r.consistency == result.consistency
      && r.charactersTyped == result.charactersTyped
      && (result.wpmData.Some? ==> r.wpmData == result.wpmData.value)
      && (result.wpmData.None? ==> r.wpmData == [])
  {
  }

  /** The storage behind the history: the value the key currently holds. */
  class HistoryStore {
    var stored: Stored

    constructor (initial: Stored)
      ensures stored == initial
    {
      stored := initial;
    }

    /** Puts the new record in front of the existing ones. If the write fails,
        the failure is swallowed and the storage keeps its old value. */
    method Save(result: Submission, nowMs: int, writeSucceeds: bool)
      modifies this
      ensures writeSucceeds ==>
        stored == Array([MakeRecord(result, nowMs)] + HistoryRaw(old(stored)))
      ensures !writeSucceeds ==> stored == old(stored)
    {
      var history := HistoryRaw(stored);
      var record := MakeRecord(result, nowMs);
      history := [record] + history;
      if writeSucceeds {
        stored := Array(history);
      }
    }
  }

  /** Saving puts the new record first and keeps every earlier one, in order. */
  lemma SaveKeepsHistory(before: Stored, result: Submission, nowMs: int)
    ensures var after := HistoryRaw(Array([MakeRecord(result, nowMs)] + HistoryRaw(before)));
      && |after| == |HistoryRaw(before)| + 1
      && after[0] == MakeRecord(result, nowMs)
      && after[1..] == HistoryRaw(before)
  {
  }

  // ---------------------------------------------------------------------------
  // History, newest first
  // ---------------------------------------------------------------------------

  ghost predicate NewestFirst(s: seq<Record>) {
    forall i, j :: 0 <= i < j < |s| ==> s[i].date >= s[j].date
  }

  /** Inserts `r` in front of the first record that is not newer than it, so a
      record keeps its place before records of the same date that followed it. */
  function InsertByDate(r: Record, s: seq<Record>): (t: seq<Record>)
    ensures multiset(t) == multiset(s) + multiset{r}
    ensures |t| == |s| + 1
    ensures t[0] == r || (s != [] && t[0] == s[0])
  {
    if s == [] || s[0].date <= r.date then [r] + s
    else
      assert s == [s[0]] + s[1..];
      [s[0]] + InsertByDate(r, s[1..])
  }

  /** No record in `s` is newer than `d`. */
  ghost predicate NoneNewerThan(s: seq<Record>, d: int) {
    forall i :: 0 <= i < |s| ==> s[i].date <= d
  }

  /** Inserting a record no newer than `d` among records no newer than `d`
      leaves none newer than `d`. */
  lemma {:induction false} InsertNoneNewer(r: Record, s: seq<Record>, d: int)
    requires r.date <= d && NoneNewerThan(s, d)
    ensures NoneNewerThan(InsertByDate(r, s), d)
  {
    if s != [] && s[0].date > r.date {
      InsertNoneNewer(r, s[1..], d);
    }
  }

  /** Inserting into a newest-first list keeps it newest first. */
  lemma {:induction false} InsertKeepsNewestFirst(r: Record, s: seq<Record>)
    requires NewestFirst(s)
    ensures NewestFirst(InsertByDate(r, s))
  {
    if s != [] && s[0].date > r.date {
      InsertKeepsNewestFirst(r, s[1..]);
      InsertNoneNewer(r, s[1..], s[0].date);
    }
  }

  /** A stable sort of the records by date, newest first. */
  function SortNewestFirst(h: seq<Record>): (t: seq<Record>)
    ensures multiset(t) == multiset(h)
    ensures NewestFirst(t)
  {
    if h == [] then []
    else
      assert h == [h[0]] + h[1..];
      InsertKeepsNewestFirst(h[0], SortNewestFirst(h[1..]));
      InsertByDate(h[0], SortNewestFirst(h[1..]))
  }

  /** The history as shown: a reordered copy of the stored list, newest first. */
  function GetHistory(stored: Stored): (h: seq<Record>)
    ensures multiset(h) == multiset(HistoryRaw(stored))
    ensures NewestFirst(h)
  {
    SortNewestFirst(HistoryRaw(stored))
  }

  // ---------------------------------------------------------------------------
  // Personal bests
  // ---------------------------------------------------------------------------

  datatype Best = Best(bestWpm: real, bestAccuracy: real)

  /** Folds one record into the bests: its duration gets an entry starting at
      zero, raised to the record's speed and accuracy where they are higher. */
  function Credit(byDuration: map<int, Best>, r: Record): map<int, Best> {
    var b := if r.duration in byDuration then byDuration[r.duration] else Best(0.0, 0.0);
    byDuration[r.duration := Best(Max(b.bestWpm, r.wpm), Max(b.bestAccuracy, r.accuracy))]
  }

  /** The bests of a history, folding its records in order. */
  function PersonalBests(h: seq<Record>): map<int, Best> {
    if h == [] then map[] else Credit(PersonalBests(h[..|h| - 1]), h[|h| - 1])
  }

  /** The loop over the history, updating the dictionary record by record. */
  method GetPersonalBests(stored: Stored) returns (byDuration: map<int, Best>)
    ensures byDuration == PersonalBests(HistoryRaw(stored))
    ensures forall d :: d in byDuration <==> exists k :: 0 <= k < |HistoryRaw(stored)| && HistoryRaw(stored)[k].duration == d
  {
    var history := HistoryRaw(stored);
    byDuration := map[];
    var i := 0;
    while i < |history|
      invariant 0 <= i <= |history|
      invariant byDuration == PersonalBests(history[..i])
    {
      var record := history[i];
      var d := record.duration;
      if d !in byDuration {
        byDuration := byDuration[d := Best(0.0, 0.0)];
      }
      if record.wpm > byDuration[d].bestWpm {
        byDuration := byDuration[d := byDuration[d].(bestWpm := record.wpm)];
      }
      if record.accuracy > byDuration[d].bestAccuracy {
        byDuration := byDuration[d := byDuration[d].(bestAccuracy := record.accuracy)];
      }
      assert history[..i + 1][..i] == history[..i];
      i := i + 1;
    }
    assert history[..i] == history;
    BestsKeys(history);
  }

  /** There is an entry for exactly the durations that occur in the history. */
  lemma {:induction false} BestsKeys(h: seq<Record>)
    ensures forall d :: d in PersonalBests(h) <==> exists k :: 0 <= k < |h| && h[k].duration == d
  {
    if h != [] {
      var n := |h| - 1;
      BestsKeys(h[..n]);
      forall d | d in PersonalBests(h)
        ensures exists k :: 0 <= k < |h| && h[k].duration == d
      {
        if d != h[n].duration {
          assert d in PersonalBests(h[..n]);
          var k :| 0 <= k < n && h[..n][k].duration == d;
          assert h[k].duration == d;
        }
      }
      forall d | exists k :: 0 <= k < |h| && h[k].duration == d
        ensures d in PersonalBests(h)
      {
        var k :| 0 <= k < |h| && h[k].duration == d;
        if k < n {
          assert h[..n][k].duration == d;
        }
      }
    }
  }

  /** Every best is at least zero and at least every speed and accuracy recorded
      for its duration. */
  lemma {:induction false} BestsBound(h: seq<Record>)
    ensures forall d :: d in PersonalBests(h) ==>
      PersonalBests(h)[d].bestWpm >= 0.0 && PersonalBests(h)[d].bestAccuracy >= 0.0
    ensures forall k :: 0 <= k < |h| ==>
      && h[k].duration in PersonalBests(h)
      && PersonalBests(h)[h[k].duration].bestWpm >= h[k].wpm
      && PersonalBests(h)[h[k].duration].bestAccuracy >= h[k].accuracy
  {
    if h != [] {
      var n := |h| - 1;
      BestsBound(h[..n]);
      forall k | 0 <= k < n
        ensures h[k] == h[..n][k]
      {
      }
    }
  }

  /** Every best is zero or was recorded by some test of its duration: together
      with `BestsBound`, it is the maximum over those tests, or zero. */
  lemma {:induction false} BestsAttained(h: seq<Record>)
    ensures forall d :: d in PersonalBests(h) ==>
      && (PersonalBests(h)[d].bestWpm == 0.0 ||
          exists k :: 0 <= k < |h| && h[k].duration == d && h[k].wpm == PersonalBests(h)[d].bestWpm)
      && (PersonalBests(h)[d].bestAccuracy == 0.0 ||
          exists k :: 0 <= k < |h| && h[k].duration == d && h[k].accuracy == PersonalBests(h)[d].bestAccuracy)
  {
    if h != [] {
      var n := |h| - 1;
      var prev := PersonalBests(h[..n]);
      BestsAttained(h[..n]);
      forall d | d in PersonalBests(h)
        ensures PersonalBests(h)[d].bestWpm == 0.0 ||
          exists k :: 0 <= k < |h| && h[k].duration == d && h[k].wpm == PersonalBests(h)[d].bestWpm
        ensures PersonalBests(h)[d].bestAccuracy == 0.0 ||
          exists k :: 0 <= k < |h| && h[k].duration == d && h[k].accuracy == PersonalBests(h)[d].bestAccuracy
      {
        var b := PersonalBests(h)[d];
        if b.bestWpm != 0.0 && !(d == h[n].duration && h[n].wpm == b.bestWpm) {
          assert d in prev && b.bestWpm == prev[d].bestWpm;
          var k :| 0 <= k < n && h[..n][k].duration == d && h[..n][k].wpm == b.bestWpm;
          assert h[k] == h[..n][k];
        }
        if b.bestAccuracy != 0.0 && !(d == h[n].duration && h[n].accuracy == b.bestAccuracy) {
          assert d in prev && b.bestAccuracy == prev[d].bestAccuracy;
          var k :| 0 <= k < n && h[..n][k].duration == d && h[..n][k].accuracy == b.bestAccuracy;
          assert h[k] == h[..n][k];
        }
      }
    }
  }
}
