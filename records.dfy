/** The canonical log record, the dictionary form in which the analyzer and
    the detectors receive it, and the anomaly the detectors report. */
module Records {

  /** The `{timestamp, level, message}` dictionary that `parse_log_line` builds. */
  datatype Rec = Rec(timestamp: string, level: string, message: string)

  /** A log dictionary as handed to the analyzer and the detectors: any keys,
      text values. */
  type Log = map<string, string>

  /** The dictionary a parsed record becomes. */
  function AsLog(r: Rec): (log: Log)
    ensures log.Keys == {"timestamp", "level", "message"}
    ensures log["timestamp"] == r.timestamp && log["level"] == r.level && log["message"] == r.message
  {
    map["timestamp" := r.timestamp, "level" := r.level, "message" := r.message]
  }

  /** The `{timestamp, response_time, message}` dictionary of one detected anomaly. */
  datatype Anomaly = Anomaly(timestamp: string, responseTime: int, message: string)

  /** `log.get(key, "")`; `log.get(key)` is falsy exactly when this is empty. */
  function Get(log: Log, key: string): string {
    if key in log then log[key] else ""
  }

  /** The positions of the logs that are kept. */
  function Kept(logs: seq<Log>, keep: Log -> bool): set<nat> {
    set i: nat | i < |logs| && keep(logs[i])
  }

  /** The last log adds its own position, or nothing. */
  lemma KeptStep(logs: seq<Log>, keep: Log -> bool)
    requires logs != []
    ensures var n := |logs| - 1;
      Kept(logs, keep) == Kept(logs[..n], keep) + if keep(logs[n]) then {n} else {}
  {
    var n := |logs| - 1;
    var p := logs[..n];
    assert forall i :: 0 <= i < n ==> p[i] == logs[i];
  }
}
