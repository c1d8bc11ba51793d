/** The daily log record and the date-keyed lookup every calendar view builds. */
module Logs {
  import opened Wrappers

  /** One user's entry for one calendar day.  `date` is a YYYY-MM-DD string;
      `mood` is 1..5 once saved; `drinks` is a non-negative count. */
  datatype Log = Log(
    id: Option<string>,
    userId: Option<string>,
    date: string,
    mood: int,
    workedOut: bool,
    exercises: seq<string>,
    drinks: int,
    notes: Option<string>,
    createdAt: Option<string>)

  /** What the rest of the application guarantees of a stored log: the mood
      selector only emits 1..5, saving is blocked while no mood is chosen, and
      the drink counter never goes below zero. */
  predicate WellFormed(l: Log)
  {
    1 <= l.mood <= 5 && l.drinks >= 0
  }

  /** `new Map(logs.map((log) => [log.date, log]))`: entries are inserted in
      order, so a later log with the same date replaces an earlier one. */
  function LogsMap(logs: seq<Log>): (m: map<string, Log>)
    ensures forall i :: 0 <= i < |logs| ==> logs[i].date in m
    ensures forall k :: k in m ==> m[k].date == k && m[k] in logs
  {
    if |logs| == 0 then map[]
    else
      var last := logs[|logs| - 1];
      var prefix := logs[..|logs| - 1];
      var m := LogsMap(prefix)[last.date := last];
      assert forall i :: 0 <= i < |prefix| ==> prefix[i] == logs[i];
      m
  }

  /** `logsMap.get(date)`. */
  function LookupLog(logs: seq<Log>, date: string): Option<Log>
  {
    var m := LogsMap(logs);
    if date in m then Some(m[date]) else None
  }

  /** The lookup finds nothing exactly when no log has that date, and what it
      finds is a log of the list with that date. */
  lemma {:induction false} LookupMissing(logs: seq<Log>, date: string)
    ensures LookupLog(logs, date).None? <==> forall i :: 0 <= i < |logs| ==> logs[i].date != date
    ensures LookupLog(logs, date).Some? ==>
      LookupLog(logs, date).value in logs && LookupLog(logs, date).value.date == date
  {
    var m := LogsMap(logs);
    if date in m {
      var l := m[date];
      var i :| 0 <= i < |logs| && logs[i] == l;
    }
  }

  /** Reference reading of the lookup: scan from the end for the first log
      with that date. */
  function LastWithDate(logs: seq<Log>, date: string): (r: Option<Log>)
    ensures r.Some? ==> r.value in logs && r.value.date == date
  {
    if |logs| == 0 then None
    else if logs[|logs| - 1].date == date then Some(logs[|logs| - 1])
    else LastWithDate(logs[..|logs| - 1], date)
  }

  /** The map lookup returns the last log in the list with that date. */
  lemma {:induction false} LookupIsLast(logs: seq<Log>, date: string)
    ensures LookupLog(logs, date) == LastWithDate(logs, date)
  {
    if |logs| > 0 {
      var n := |logs|;
      var prefix := logs[..n - 1];
      assert LogsMap(logs) == LogsMap(prefix)[logs[n - 1].date := logs[n - 1]];
      if logs[n - 1].date != date {
        LookupIsLast(prefix, date);
      }
    }
  }

  /** The found log sits at or after every log with the same date. */
  lemma {:induction false} LastWithDateIsLast(logs: seq<Log>, date: string, j: int)
    requires LastWithDate(logs, date).Some? && 0 <= j < |logs| && logs[j].date == date
    ensures exists i :: j <= i < |logs| && logs[i] == LastWithDate(logs, date).value
  {
    var n := |logs|;
    if logs[n - 1].date == date {
      assert logs[n - 1] == LastWithDate(logs, date).value;
    } else {
      var prefix := logs[..n - 1];
      assert prefix[j] == logs[j];
      LastWithDateIsLast(prefix, date, j);
      var i :| j <= i < |prefix| && prefix[i] == LastWithDate(prefix, date).value;
      assert logs[i] == prefix[i];
    }
  }
}
