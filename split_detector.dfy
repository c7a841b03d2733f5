/** The split-based response-time detector of src/detector.py: a message that
    contains `API response time` (exact case) is cut at every `:`, and the
    second piece, stripped and with every `ms` deleted, is read with `int()`.
    Anomalies keep log order; a log without a `message` key, or a flagged log
    without a `timestamp` key, raises `KeyError` and ends the scan. */
module SplitDetector {
  import opened Wrappers
  import opened Text
  import opened Records

  /** The exception that ends the scan: the key that was looked up and missing. */
  datatype KeyError = KeyError(key: string)

  const Marker := "API response time"
  const DefaultThreshold := 1000

  /** `int(message.split(":")[1].strip().replace("ms", ""))`, or `None` when
      there is no second piece or `int()` raises `ValueError`. */
  function ValueOf(message: string): Option<int> {
    var parts := Split(message, ":");
    if |parts| > 1 then ParseInt(Replace(Strip(parts[1]), "ms", "")) else None
  }

  /** The anomaly one log yields, reading missing keys as empty. */
  function Flag(log: Log, thresholdMs: int): Option<Anomaly> {
    var message := Get(log, "message");
    if !Contains(message, Marker) then None
    else match ValueOf(message)
      case None => None
      case Some(v) => if v > thresholdMs then Some(Anomaly(Get(log, "timestamp"), v, message)) else None
  }

  /** One turn of the loop: the `message` lookup always happens, the
      `timestamp` lookup only for a flagged log. */
  function Step(acc: seq<Anomaly>, log: Log, thresholdMs: int): Result<seq<Anomaly>, KeyError> {
    if "message" !in log then Failure(KeyError("message"))
    else match Flag(log, thresholdMs)
      case None => Success(acc)
      case Some(a) => if "timestamp" !in log then Failure(KeyError("timestamp")) else Success(acc + [a])
  }

  /** The whole loop over `logs`: the first `KeyError` ends it. */
  function Scan(logs: seq<Log>, thresholdMs: int): Result<seq<Anomaly>, KeyError>
    decreases |logs|
  {
    if logs == [] then Success([])
    else
      var n := |logs| - 1;
      match Scan(logs[..n], thresholdMs)
      case Failure(e) => Failure(e)
      case Success(acc) => Step(acc, logs[n], thresholdMs)
  }

  lemma {:induction false} ScanStopsAtFailure(logs: seq<Log>, i: nat, thresholdMs: int)
    requires i <= |logs| && Scan(logs[..i], thresholdMs).Failure?
    ensures Scan(logs, thresholdMs) == Scan(logs[..i], thresholdMs)
    decreases |logs| - i
  {
    if i < |logs| {
      var q := logs[..i + 1];
      assert q[..i] == logs[..i];
      ScanAfterFailure(q, thresholdMs);
      ScanStopsAtFailure(logs, i + 1, thresholdMs);
    } else {
      assert logs[..i] == logs;
    }
  }

  lemma ScanAfterFailure(logs: seq<Log>, thresholdMs: int)
    requires logs != [] && Scan(logs[..|logs| - 1], thresholdMs).Failure?
    ensures Scan(logs, thresholdMs) == Scan(logs[..|logs| - 1], thresholdMs)
  {
  }

  /** `detect_high_response_times(logs, threshold_ms)` of src/detector.py. */
  method DetectHighResponseTimes(logs: seq<Log>, thresholdMs: int := DefaultThreshold) returns (result: Result<seq<Anomaly>, KeyError>)
    ensures result == Scan(logs, thresholdMs)
  {
    var anomalies := [];
    for i := 0 to |logs|
      invariant Scan(logs[..i], thresholdMs) == Success(anomalies)
    {
      var log := logs[i];
      assert logs[..i + 1][..i] == logs[..i] && logs[..i + 1][i] == log;
      if "message" !in log {
        ScanStopsAtFailure(logs, i + 1, thresholdMs);
        return Failure(KeyError("message"));
      }
      var message := log["message"];
      if Contains(message, Marker) {
        var parts := Split(message, ":");
        if |parts| > 1 {
          var parsed := ParseInt(Replace(Strip(parts[1]), "ms", ""));
          if parsed.Some? {
            var responseTime := parsed.value;
            if responseTime > thresholdMs {
              if "timestamp" !in log {
                ScanStopsAtFailure(logs, i + 1, thresholdMs);
                return Failure(KeyError("timestamp"));
              }
              anomalies := anomalies + [Anomaly(log["timestamp"], responseTime, message)];
            }
          }
        }
      }
    }
    assert logs[..|logs|] == logs;
    return Success(anomalies);
  }

  // ----- what the scan returns -----

  /** The log has every key the loop looks up in it. */
  predicate HasKeys(log: Log, thresholdMs: int) {
    "message" in log && (Flag(log, thresholdMs).Some? ==> "timestamp" in log)
  }

  /** What each log yields, in log order. */
  function Outcomes(logs: seq<Log>, thresholdMs: int): (os: seq<Option<Anomaly>>)
    ensures |os| == |logs| && forall i :: 0 <= i < |logs| ==> os[i] == Flag(logs[i], thresholdMs)
  {
    seq(|logs|, i requires 0 <= i < |logs| => Flag(logs[i], thresholdMs))
  }

  /** The anomalies present among the outcomes, in order. */
  function Present(os: seq<Option<Anomaly>>): seq<Anomaly>
    decreases |os|
  {
    if os == [] then []
    else
      var n := |os| - 1;
      Present(os[..n]) + match os[n] case Some(a) => [a] case None => []
  }

  /** The positions of those anomalies. */
  function PresentAt(os: seq<Option<Anomaly>>): seq<nat>
    decreases |os|
  {
    if os == [] then []
    else
      var n := |os| - 1;
      PresentAt(os[..n]) + if os[n].Some? then [n] else []
  }

  /** The present anomalies are those of the outcomes that hold one, each once, in order. */
  lemma {:induction false} PresentSpec(os: seq<Option<Anomaly>>)
    ensures var r, idx := Present(os), PresentAt(os);
      && |r| == |idx|
      && (forall k :: 0 <= k < |idx| ==> idx[k] < |os| && os[idx[k]] == Some(r[k]))
      && (forall k, l :: 0 <= k < l < |idx| ==> idx[k] < idx[l])
      && (forall i :: 0 <= i < |os| && os[i].Some? ==> i in idx)
  {
    PresentPairs(os);
    PresentAtIncreasing(os);
    PresentAtCovers(os);
  }

  lemma {:induction false} PresentPairs(os: seq<Option<Anomaly>>)
    ensures |Present(os)| == |PresentAt(os)|
    ensures forall k :: 0 <= k < |PresentAt(os)| ==>
      PresentAt(os)[k] < |os| && os[PresentAt(os)[k]] == Some(Present(os)[k])
    decreases |os|
  {
    if os != [] {
      var n := |os| - 1;
      var p := os[..n];
      PresentPairs(p);
      var r, idx := Present(os), PresentAt(os);
      forall k | 0 <= k < |idx| ensures idx[k] < |os| && os[idx[k]] == Some(r[k]) {
        if k < |PresentAt(p)| {
          assert idx[k] == PresentAt(p)[k] && r[k] == Present(p)[k];
          assert os[idx[k]] == p[idx[k]];
        }
      }
    }
  }

  lemma {:induction false} PresentAtIncreasing(os: seq<Option<Anomaly>>)
    ensures forall k :: 0 <= k < |PresentAt(os)| ==> PresentAt(os)[k] < |os|
    ensures forall k, l :: 0 <= k < l < |PresentAt(os)| ==> PresentAt(os)[k] < PresentAt(os)[l]
    decreases |os|
  {
    if os != [] {
      PresentAtIncreasing(os[..|os| - 1]);
    }
  }

  lemma {:induction false} PresentAtCovers(os: seq<Option<Anomaly>>)
    ensures forall i :: 0 <= i < |os| && os[i].Some? ==> i in PresentAt(os)
    decreases |os|
  {
    if os != [] {
      var n := |os| - 1;
      PresentAtCovers(os[..n]);
      forall i | 0 <= i < |os| && os[i].Some? ensures i in PresentAt(os) {
        if i < n {
          assert os[..n][i] == os[i];
        }
      }
    }
  }

  /** The anomalies of the flagged logs, in log order. */
  function Flagged(logs: seq<Log>, thresholdMs: int): seq<Anomaly> {
    Present(Outcomes(logs, thresholdMs))
  }

  /** The scan raises exactly when some log lacks a key it looks up. */
  lemma {:induction false} ScanFails(logs: seq<Log>, thresholdMs: int)
    ensures Scan(logs, thresholdMs).Failure? <==> exists i :: 0 <= i < |logs| && !HasKeys(logs[i], thresholdMs)
    decreases |logs|
  {
    if logs != [] {
      var n := |logs| - 1;
      ScanFails(logs[..n], thresholdMs);
      ScanStep(logs, thresholdMs);
      LacksStep(logs, thresholdMs);
    }
  }

  /** The last log makes the scan raise exactly when it lacks a key. */
  lemma ScanStep(logs: seq<Log>, thresholdMs: int)
    requires logs != []
    ensures var n := |logs| - 1;
      Scan(logs, thresholdMs).Failure? <==> Scan(logs[..n], thresholdMs).Failure? || !HasKeys(logs[n], thresholdMs)
  {
  }

  lemma LacksStep(logs: seq<Log>, thresholdMs: int)
    requires logs != []
    ensures var n := |logs| - 1;
      (exists i :: 0 <= i < |logs| && !HasKeys(logs[i], thresholdMs))
      <==> (exists i :: 0 <= i < n && !HasKeys(logs[..n][i], thresholdMs)) || !HasKeys(logs[n], thresholdMs)
  {
    var n := |logs| - 1;
    var p := logs[..n];
    assert forall i :: 0 <= i < n ==> p[i] == logs[i];
  }

  /** Otherwise it returns the anomalies of the flagged logs. */
  lemma {:induction false} ScanSucceeds(logs: seq<Log>, thresholdMs: int)
    requires Scan(logs, thresholdMs).Success?
    ensures Scan(logs, thresholdMs).value == Flagged(logs, thresholdMs)
    decreases |logs|
  {
    if logs != [] {
      var n := |logs| - 1;
      ScanSucceeds(logs[..n], thresholdMs);
      assert Outcomes(logs, thresholdMs)[..n] == Outcomes(logs[..n], thresholdMs);
    }
  }

  /** A log is reported exactly when its message holds the marker and reads
      as a value above the threshold; the anomaly carries that value and the
      log's timestamp and message. */
  lemma FlagSpec(log: Log, thresholdMs: int)
    ensures var message := Get(log, "message");
      Flag(log, thresholdMs).Some? <==>
        Contains(message, Marker) && ValueOf(message).Some? && ValueOf(message).value > thresholdMs
    ensures var message := Get(log, "message");
      Flag(log, thresholdMs).Some? ==>
        Flag(log, thresholdMs) == Some(Anomaly(Get(log, "timestamp"), ValueOf(message).value, message))
  {
  }

  /** Logs built from parsed records have every key, so the scan succeeds. */
  lemma ParsedLogsScan(recs: seq<Rec>, thresholdMs: int)
    ensures Scan(seq(|recs|, i requires 0 <= i < |recs| => AsLog(recs[i])), thresholdMs).Success?
  {
    var logs := seq(|recs|, i requires 0 <= i < |recs| => AsLog(recs[i]));
    ScanFails(logs, thresholdMs);
    assert forall i :: 0 <= i < |logs| ==> HasKeys(logs[i], thresholdMs);
  }

  // ----- the canonical message form -----

  /** The second piece of the canonical message, once stripped and freed of `ms`. */
  lemma NumberPiece(digits: string)
    requires digits != [] && AllDigits(digits)
    ensures Replace(Strip(" " + digits + "ms"), "ms", "") == digits
  {
    StripPiece(digits);
    assert forall i :: 0 <= i < |digits| ==> digits[i] != 's';
    DropUnit(digits);
  }

  lemma StripPiece(digits: string)
    requires digits != [] && AllDigits(digits)
    ensures Strip(" " + digits + "ms") == digits + "ms"
  {
    var core := digits + "ms";
    StripSurrounded(" ", core, []);
    assert " " + digits + "ms" == " " + core + [];
  }

  lemma DropUnit(digits: string)
    requires 's' !in digits
    ensures Replace(digits + "ms", "ms", "") == digits
  {
    var core := digits + "ms";
    assert 's' !in digits + "m";
    MissingCharNotContained(digits + "m", "ms", 1);
    assert "ms"[..|"ms"| - 1] == "m";
    SplitAtFirst(digits, "ms", []);
    assert core == digits + "ms" + [];
    SplitWithout([], "ms");
    var parts := Split(core, "ms");
    assert parts == [digits, []];
    assert parts[1..] == [[]];
    assert Join(parts, []) == digits + [] + Join([[]], []);
  }

  /** The canonical message contains the marker. */
  lemma CanonicalMarked(rest: string)
    ensures Contains(Marker + rest, Marker)
  {
    ContainsIff(Marker + rest, Marker);
    assert (Marker + rest)[..|Marker|] == Marker;
    assert OccursAt(Marker + rest, Marker, 0);
  }

  /** Its first piece is the marker; the rest holds no further `:`. */
  lemma CanonicalPieces(digits: string)
    requires AllDigits(digits)
    ensures Split(Marker + ":" + (" " + digits + "ms"), ":") == [Marker, " " + digits + "ms"]
  {
    var rest := " " + digits + "ms";
    assert ':' !in Marker;
    ColonFree(digits);
    SplitAtColon(Marker, rest);
  }

  /** Text and a first `:` that it does not contain. */
  lemma SplitAtColon(a: string, rest: string)
    requires ':' !in a && ':' !in rest
    ensures Split(a + ":" + rest, ":") == [a, rest]
  {
    MissingCharNotContained(a, ":", 0);
    assert a + ":"[..0] == a;
    SplitAtFirst(a, ":", rest);
    MissingCharNotContained(rest, ":", 0);
    SplitWithout(rest, ":");
  }

  lemma ColonFree(digits: string)
    requires AllDigits(digits)
    ensures ':' !in " " + digits + "ms"
  {
    var rest := " " + digits + "ms";
    forall i | 0 <= i < |rest| ensures rest[i] != ':' {
      if 1 <= i < 1 + |digits| {
        assert rest[i] == digits[i - 1];
      }
    }
  }

  /** The canonical form `API response time: <n>ms` yields `n`. */
  lemma CanonicalValue(n: nat)
    ensures Contains("API response time: " + Decimal(n) + "ms", Marker)
    ensures ValueOf("API response time: " + Decimal(n) + "ms") == Some(n)
  {
    var digits := Decimal(n);
    var rest := " " + digits + "ms";
    CanonicalForm(digits);
    CanonicalMarked(":" + rest);
    CanonicalPieces(digits);
    ValueOfPieces("API response time: " + digits + "ms", rest);
    NumberPiece(digits);
    DecimalParses(n);
  }

  /** A separator character between the digits and `ms` survives `strip()`,
      so `int()` rejects the piece and the log is not reported, however
      large the value. */
  lemma SeparatorBeforeUnit(n: nat, c: char, log: Log, thresholdMs: int)
    requires 28 <= c as int <= 31
    requires Get(log, "message") == "API response time: " + Decimal(n) + [c] + "ms"
    ensures ValueOf(Get(log, "message")) == None
    ensures Flag(log, thresholdMs) == None
  {
    var digits := Decimal(n);
    var rest := " " + (digits + [c]) + "ms";
    assert "API response time: " + digits + [c] + "ms" == Marker + ":" + rest;
    forall i | 0 <= i < |rest| ensures rest[i] != ':' {
      if 1 <= i < 1 + |digits| {
        assert rest[i] == digits[i - 1];
      }
    }
    assert ':' !in Marker;
    SplitAtColon(Marker, rest);
    ValueOfPieces(Marker + ":" + rest, rest);
    SeparatorPiece(digits, c);
  }

  /** The second piece with a separator before `ms` is not an integer. */
  lemma SeparatorPiece(digits: string, c: char)
    requires digits != [] && AllDigits(digits) && 28 <= c as int <= 31
    ensures ParseInt(Replace(Strip(" " + (digits + [c]) + "ms"), "ms", "")) == None
  {
    var piece := digits + [c];
    StripSurrounded(" ", piece + "ms", []);
    assert " " + piece + "ms" == " " + (piece + "ms") + [];
    forall i | 0 <= i < |piece| ensures piece[i] != 's' {
      if i < |digits| {
        assert piece[i] == digits[i];
      }
    }
    DropUnit(piece);
    ParseIntRejectsSeparator(digits, c);
  }

  lemma CanonicalForm(digits: string)
    ensures "API response time: " + digits + "ms" == Marker + ":" + (" " + digits + "ms")
    ensures "API response time: " + digits + "ms" == Marker + (":" + (" " + digits + "ms"))
  {
  }

  /** The value is read from the second piece. */
  lemma ValueOfPieces(message: string, rest: string)
    requires Split(message, ":") == [Marker, rest]
    ensures ValueOf(message) == ParseInt(Replace(Strip(rest), "ms", ""))
  {
  }

  /** `int()` reads back a number's decimal digits. */
  lemma DecimalParses(n: nat)
    ensures ParseInt(Decimal(n)) == Some(n)
  {
    ParseIntKeeps(Decimal(n));
    ParseIntText(n);
  }
}
