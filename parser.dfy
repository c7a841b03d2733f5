/** The multi-format line parser and the batch parser of app/src/parser.py.
    A line is stripped, then tried as a JSON object, then against the
    space-separated pattern `^(\d{4}-\d{2}-\d{2}) (\d{2}:\d{2}:\d{2}) (\w+) (.+)$`,
    then split on `" - "`; the first recogniser that succeeds decides. */
module Parser {
  import opened Wrappers
  import opened Text
  import opened Records

  /** The values `json.loads` can produce (numbers as integers). */
  datatype Json =
    | JNull
    | JBool(b: bool)
    | JNumber(n: int)
    | JString(s: string)
    | JArray(items: seq<Json>)
    | JObject(members: map<string, Json>)

  /** `json.loads`: the decoded value, or `None` where it raises `JSONDecodeError`. */
  type Decoder = string -> Option<Json>

  /** Why a line could not be turned into a record although it decoded as JSON. */
  datatype Fault =
    | NotAnObject   // `.get` called on a decoded value that is not a dict
    | LevelNotText  // `.upper()` called on a `level` that is not a string
    | NonTextField  // a `timestamp` or `message` that is not a string (outside the text records)

  /** What `parse_log_line` does with one line: a record, `None`, or an exception. */
  datatype Outcome = Parsed(rec: Rec) | Dropped | Failed(fault: Fault)

  const DashSeparator := " - "

  // ----- recogniser 1: JSON object -----

  predicate IsTextMember(m: map<string, Json>, key: string) {
    key !in m || m[key].JString?
  }

  /** `obj.get(key, "")` for a member that is absent or a string. */
  function TextMember(m: map<string, Json>, key: string): string
    requires IsTextMember(m, key)
  {
    if key in m then m[key].s else ""
  }

  /** The JSON branch once `json.loads` has succeeded. */
  function FromJson(v: Json): Outcome {
    if !v.JObject? then Failed(NotAnObject)
    else
      var m := v.members;
      if !IsTextMember(m, "level") then Failed(LevelNotText)
      else if !IsTextMember(m, "timestamp") || !IsTextMember(m, "message") then Failed(NonTextField)
      else Parsed(Rec(TextMember(m, "timestamp"), Upper(TextMember(m, "level")), TextMember(m, "message")))
  }

  // ----- recogniser 2: the space-separated pattern -----

  predicate DigitsBetween(t: string, lo: nat, hi: nat)
    requires lo <= hi <= |t|
  {
    forall i :: lo <= i < hi ==> IsDigit(t[i])
  }

  /** `\d{4}-\d{2}-\d{2}` */
  predicate IsDate(d: string) {
    |d| == 10 && DigitsBetween(d, 0, 4) && d[4] == '-' && DigitsBetween(d, 5, 7)
    && d[7] == '-' && DigitsBetween(d, 8, 10)
  }

  /** `\d{2}:\d{2}:\d{2}` */
  predicate IsTime(x: string) {
    |x| == 8 && DigitsBetween(x, 0, 2) && x[2] == ':' && DigitsBetween(x, 3, 5)
    && x[5] == ':' && DigitsBetween(x, 6, 8)
  }

  /** `\w+` */
  predicate IsWord(w: string) {
    w != [] && forall i :: 0 <= i < |w| ==> IsWordChar(w[i])
  }

  /** `.+`: one or more characters other than a line feed. */
  predicate IsRest(s: string) {
    s != [] && '\n' !in s
  }

  /** Length of the run of word characters starting at `i`. */
  function WordRun(t: string, i: nat): (n: nat)
    requires i <= |t|
    ensures i + n <= |t|
    ensures forall k :: i <= k < i + n ==> IsWordChar(t[k])
    ensures i + n == |t| || !IsWordChar(t[i + n])
    decreases |t| - i
  {
    if i < |t| && IsWordChar(t[i]) then 1 + WordRun(t, i + 1) else 0
  }

  /** The space-separated recogniser. `(\w+) ` can only take the whole word run
      (the character after a shorter run is a word character, not a space),
      and `$` matches at the end or before a final line feed. */
  function SpaceMatch(t: string): Option<Rec> {
    if |t| < 20 || !IsDate(t[..10]) || t[10] != ' ' || !IsTime(t[11..19]) || t[19] != ' ' then None
    else
      var w := WordRun(t, 20);
      if w == 0 || 20 + w >= |t| || t[20 + w] != ' ' then None
      else
        var tail := t[21 + w..];
        var rest := if tail != [] && tail[|tail| - 1] == '\n' then tail[..|tail| - 1] else tail;
        if !IsRest(rest) then None
        else Some(Rec(t[..10] + " " + t[11..19], Upper(t[20..20 + w]), rest))
  }

  // ----- recogniser 3: the dash-separated split -----

  function DashSplit(t: string): Outcome {
    var parts := Split(t, DashSeparator);
    if |parts| == 3 then Parsed(Rec(Strip(parts[0]), Upper(Strip(parts[1])), Strip(parts[2])))
    else Dropped
  }

  // ----- parse_log_line -----

  /** `parse_log_line(line)` with `json.loads` given as `decode`. */
  function ParseLine(decode: Decoder, line: string): Outcome {
    var t := Strip(line);
    if t == [] then Dropped
    else match decode(t)
      case Some(v) => FromJson(v)
      case None =>
        match SpaceMatch(t)
        case Some(r) => Parsed(r)
        case None => DashSplit(t)
  }

  /** An empty or whitespace-only line yields no record and raises nothing. */
  lemma BlankLineDropped(decode: Decoder, line: string)
    ensures IsBlank(line) <==> Strip(line) == []
    ensures IsBlank(line) ==> ParseLine(decode, line) == Dropped
  {
    StripEmptyIffBlank(line);
  }

  /** A line that decodes as a JSON object is decided by the JSON branch, whatever
      spaces or dashes it holds: absent keys read as "", the level is upper-cased,
      timestamp and message are taken as they are. */
  lemma JsonObjectWins(decode: Decoder, line: string, m: map<string, Json>)
    requires Strip(line) != [] && decode(Strip(line)) == Some(JObject(m))
    requires IsTextMember(m, "timestamp") && IsTextMember(m, "level") && IsTextMember(m, "message")
    ensures ParseLine(decode, line).Parsed?
    ensures var r := ParseLine(decode, line).rec;
      && r.timestamp == (if "timestamp" in m then m["timestamp"].s else "")
      && r.level == Upper(if "level" in m then m["level"].s else "")
      && r.message == (if "message" in m then m["message"].s else "")
  {
  }

  /** A JSON object carrying the three fields of a record with an upper-case
      level gives that record back. */
  lemma JsonRecordRoundTrip(decode: Decoder, line: string, r: Rec)
    requires Strip(line) != []
    requires Upper(r.level) == r.level
    requires decode(Strip(line)) == Some(JObject(map["timestamp" := JString(r.timestamp),
                                                     "level" := JString(r.level),
                                                     "message" := JString(r.message)]))
    ensures ParseLine(decode, line) == Parsed(r)
  {
  }

  /** A decoded JSON value that is not an object makes the parser raise; a
      non-string level inside an object does too. */
  lemma JsonNonObjectFails(decode: Decoder, line: string, v: Json)
    requires Strip(line) != [] && decode(Strip(line)) == Some(v)
    ensures !v.JObject? ==> ParseLine(decode, line) == Failed(NotAnObject)
    ensures v.JObject? && "level" in v.members && !v.members["level"].JString?
            ==> ParseLine(decode, line) == Failed(LevelNotText)
  {
  }

  /** A line `json.loads` rejects falls through to the pattern, then to the split,
      and never raises. */
  lemma UndecodableFallsThrough(decode: Decoder, line: string)
    requires Strip(line) != [] && decode(Strip(line)) == None
    ensures !ParseLine(decode, line).Failed?
    ensures SpaceMatch(Strip(line)).Some? ==> ParseLine(decode, line) == Parsed(SpaceMatch(Strip(line)).value)
    ensures SpaceMatch(Strip(line)).None? ==> ParseLine(decode, line) == DashSplit(Strip(line))
  {
  }

  lemma WordRunExact(t: string, i: nat, n: nat)
    requires i + n <= |t|
    requires forall k :: i <= k < i + n ==> IsWordChar(t[k])
    requires i + n == |t| || !IsWordChar(t[i + n])
    ensures WordRun(t, i) == n
  {
  }

  /** A line `DATE TIME WORD REST` with a well-formed date and time, a word
      level and a rest free of line feeds parses through the pattern, whatever
      the rest holds (dashes included): the timestamp is `DATE TIME`, the level
      the upper-cased word and the message the rest, untrimmed. */
  lemma SpaceFormatRoundTrip(decode: Decoder, date: string, time: string, level: string, message: string)
    requires IsDate(date) && IsTime(time) && IsWord(level) && IsRest(message)
    requires !IsSpace(message[|message| - 1])
    requires decode(date + " " + time + " " + level + " " + message) == None
    ensures ParseLine(decode, date + " " + time + " " + level + " " + message)
            == Parsed(Rec(date + " " + time, Upper(level), message))
  {
    var t := date + " " + time + " " + level + " " + message;
    SpaceLineLayout(date, time, level, message);
    assert IsDigit(t[0]);
    StripKeeps(t);
    WordRunExact(t, 20, |level|);
    SpaceMatchOf(t, date, time, level, message);
  }

  /** Where the pieces of `DATE TIME WORD REST` sit in the line. */
  lemma SpaceLineLayout(date: string, time: string, level: string, message: string)
    requires |date| == 10 && |time| == 8 && level != [] && message != []
    ensures var t := date + " " + time + " " + level + " " + message;
      var w := |level|;
      && |t| == 21 + w + |message|
      && t[..10] == date && t[10] == ' ' && t[11..19] == time && t[19] == ' '
      && t[20..20 + w] == level && t[20 + w] == ' ' && t[21 + w..] == message
      && (forall k :: 0 <= k < w ==> t[20 + k] == level[k])
      && t[0] == date[0] && t[|t| - 1] == message[|message| - 1]
  {
  }

  /** The pattern on a line laid out as `DATE TIME WORD REST`. */
  lemma SpaceMatchOf(t: string, date: string, time: string, level: string, message: string)
    requires IsDate(date) && IsTime(time) && IsRest(message) && level != []
    requires var w := |level|;
      && |t| == 21 + w + |message|
      && t[..10] == date && t[10] == ' ' && t[11..19] == time && t[19] == ' '
      && t[20..20 + w] == level && t[20 + w] == ' ' && t[21 + w..] == message
      && WordRun(t, 20) == w
    requires message[|message| - 1] != '\n'
    ensures SpaceMatch(t) == Some(Rec(date + " " + time, Upper(level), message))
  {
  }

  /** What the pattern accepted: the line is the timestamp, the original level
      word and the message, separated by single spaces (plus a final line feed,
      which `$` lets through). */
  lemma SpaceMatchShape(t: string)
    requires SpaceMatch(t).Some?
    ensures var r := SpaceMatch(t).value;
      && |r.timestamp| == 19 && IsDate(r.timestamp[..10]) && r.timestamp[10] == ' '
      && IsTime(r.timestamp[11..]) && IsRest(r.message)
      && exists level :: IsWord(level) && Upper(level) == r.level
           && (t == r.timestamp + " " + level + " " + r.message
               || t == r.timestamp + " " + level + " " + r.message + "\n")
  {
    var r := SpaceMatch(t).value;
    var level, tail := SpaceMatchParts(t);
    StampShape(t, r.timestamp);
    TailHoldsMessage(tail, r.message);
    ShapeWitness(t, r, level, tail);
  }

  /** The level word and the text after it, as the pattern split the line. */
  lemma SpaceMatchParts(t: string) returns (level: string, tail: string)
    requires SpaceMatch(t).Some?
    ensures var r := SpaceMatch(t).value;
      && |t| >= 19 && IsDate(t[..10]) && IsTime(t[11..19]) && r.timestamp == t[..19]
      && IsWord(level) && r.level == Upper(level) && IsRest(r.message)
      && t == r.timestamp + " " + level + " " + tail
      && r.message == if tail != [] && tail[|tail| - 1] == '\n' then tail[..|tail| - 1] else tail
  {
    var w := SpaceMatchFacts(t);
    level, tail := t[20..20 + w], t[21 + w..];
    PartsOfLine(t, w, SpaceMatch(t).value);
  }

  lemma PartsOfLine(t: string, w: nat, r: Rec)
    requires 20 + w < |t| && IsWord(t[20..20 + w])
    requires IsDate(t[..10]) && IsTime(t[11..19]) && t[19] == ' ' && t[20 + w] == ' '
    requires var tail := t[21 + w..];
      var rest := if tail != [] && tail[|tail| - 1] == '\n' then tail[..|tail| - 1] else tail;
      IsRest(rest) && r == Rec(t[..19], Upper(t[20..20 + w]), rest)
    ensures var level, tail := t[20..20 + w], t[21 + w..];
      && r.timestamp == t[..19] && r.level == Upper(level)
      && t == r.timestamp + " " + level + " " + tail
      && r.message == if tail != [] && tail[|tail| - 1] == '\n' then tail[..|tail| - 1] else tail
  {
    LineOfParts(t, 19, 20 + w);
  }

  /** What the pattern checked, and the record it built. */
  lemma SpaceMatchFacts(t: string) returns (w: nat)
    requires SpaceMatch(t).Some?
    ensures w == WordRun(t, 20) && 20 + w < |t| && IsWord(t[20..20 + w])
    ensures IsDate(t[..10]) && t[10] == ' ' && IsTime(t[11..19]) && t[19] == ' ' && t[20 + w] == ' '
    ensures var tail := t[21 + w..];
      var rest := if tail != [] && tail[|tail| - 1] == '\n' then tail[..|tail| - 1] else tail;
      IsRest(rest) && SpaceMatch(t).value == Rec(t[..19], Upper(t[20..20 + w]), rest)
  {
    w := WordRun(t, 20);
    StampOfLine(t);
  }

  /** The timestamp the pattern builds is the first 19 characters of the line. */
  lemma StampOfLine(t: string)
    requires |t| >= 19 && t[10] == ' '
    ensures t[..10] + " " + t[11..19] == t[..19]
  {
  }

  /** A line cut around two of its characters. */
  lemma CutTwice(t: string, i: nat, j: nat)
    requires i < j < |t|
    ensures t == t[..i] + [t[i]] + t[i + 1..j] + [t[j]] + t[j + 1..]
  {
  }

  lemma StampShape(t: string, stamp: string)
    requires |t| >= 19 && IsDate(t[..10]) && IsTime(t[11..19]) && stamp == t[..19]
    ensures |stamp| == 19 && stamp[..10] == t[..10] && stamp[11..] == t[11..19]
  {
  }

  /** A line cut around two spaces. */
  lemma LineOfParts(t: string, i: nat, j: nat)
    requires i < j < |t| && t[i] == ' ' && t[j] == ' '
    ensures t == t[..i] + " " + t[i + 1..j] + " " + t[j + 1..]
  {
    CutTwice(t, i, j);
  }

  lemma TailHoldsMessage(tail: string, message: string)
    requires message == if tail != [] && tail[|tail| - 1] == '\n' then tail[..|tail| - 1] else tail
    ensures tail == message || tail == message + "\n"
  {
    if tail != [] && tail[|tail| - 1] == '\n' {
      assert tail == tail[..|tail| - 1] + "\n";
    }
  }

  lemma ShapeWitness(t: string, r: Rec, level: string, tail: string)
    requires IsWord(level) && Upper(level) == r.level
    requires t == r.timestamp + " " + level + " " + tail
    requires tail == r.message || tail == r.message + "\n"
    ensures exists level :: IsWord(level) && Upper(level) == r.level
                            && (t == r.timestamp + " " + level + " " + r.message
                                || t == r.timestamp + " " + level + " " + r.message + "\n")
  {
    if tail == r.message + "\n" {
      assert t == r.timestamp + " " + level + " " + r.message + "\n";
    }
  }

  /** The sample line named in the comment of the space-separated branch. */
  lemma SpaceExample(decode: Decoder)
    requires decode("2025-08-13 15:22:01 INFO Some message") == None
    ensures ParseLine(decode, "2025-08-13 15:22:01 INFO Some message")
            == Parsed(Rec("2025-08-13 15:22:01", "INFO", "Some message"))
  {
    var date, time, level, message := "2025-08-13", "15:22:01", "INFO", "Some message";
    SpaceExamplePieces(date, time, level, message);
    SpaceExampleLine(date, time, level, message);
    SpaceFormatRoundTrip(decode, date, time, level, message);
  }

  lemma SpaceExamplePieces(date: string, time: string, level: string, message: string)
    requires date == "2025-08-13" && time == "15:22:01" && level == "INFO" && message == "Some message"
    ensures IsDate(date) && IsTime(time) && IsWord(level) && IsRest(message) && !IsSpace(message[|message| - 1])
    ensures Upper(level) == level
  {
    ExampleStamp(date, time);
    ExampleWord(level);
    ExampleRest(message);
  }

  lemma ExampleWord(level: string)
    requires level == "INFO"
    ensures IsWord(level) && Upper(level) == level
  {
  }

  lemma ExampleRest(message: string)
    requires message == "Some message"
    ensures IsRest(message) && !IsSpace(message[|message| - 1])
  {
  }

  lemma SpaceExampleLine(date: string, time: string, level: string, message: string)
    requires date == "2025-08-13" && time == "15:22:01" && level == "INFO" && message == "Some message"
    ensures date + " " + time + " " + level + " " + message == "2025-08-13 15:22:01 INFO Some message"
    ensures date + " " + time == "2025-08-13 15:22:01"
  {
  }

  /** What the split accepted: exactly two separators, three pieces free of it,
      each piece trimmed and the level upper-cased. */
  lemma DashShape(t: string)
    requires DashSplit(t).Parsed?
    ensures exists p0, p1, p2 ::
      && t == p0 + DashSeparator + p1 + DashSeparator + p2
      && !Contains(p0, DashSeparator) && !Contains(p1, DashSeparator) && !Contains(p2, DashSeparator)
      && DashSplit(t).rec == Rec(Strip(p0), Upper(Strip(p1)), Strip(p2))
  {
    var parts := Split(t, DashSeparator);
    JoinSplit(t, DashSeparator);
    SplitPiecesFree(t, DashSeparator);
    JoinThree(parts, DashSeparator);
  }

  /** Three pieces joined by a separator. */
  lemma JoinThree(parts: seq<string>, sep: string)
    requires |parts| == 3
    ensures Join(parts, sep) == parts[0] + sep + parts[1] + sep + parts[2]
  {
    assert parts[1..][1..] == [parts[2]];
    assert Join(parts[1..], sep) == parts[1] + sep + parts[2];
  }

  /** The split decides only with exactly three pieces; any other count drops the line. */
  lemma DashNeedsThree(decode: Decoder, line: string)
    requires Strip(line) != [] && decode(Strip(line)) == None && SpaceMatch(Strip(line)).None?
    ensures ParseLine(decode, line).Parsed? <==> |Split(Strip(line), DashSeparator)| == 3
    ensures |Split(Strip(line), DashSeparator)| != 3 ==> ParseLine(decode, line) == Dropped
  {
  }

  /** A timestamp `DATE TIME` followed by the start of the separator holds
      no separator: its only spaces are followed by a digit or end it. */
  lemma StampFreeOfSeparator(date: string, time: string)
    requires IsDate(date) && IsTime(time)
    ensures !Contains(date + " " + time + " -", DashSeparator)
  {
    var s := date + " " + time + " -";
    forall i | 0 <= i && i + 3 <= |s|
      ensures !OccursAt(s, DashSeparator, i)
    {
      assert s[i..i + 3][0] == s[i] && s[i..i + 3][1] == s[i + 1];
      if i < 10 {
        assert s[i] == date[i];
      } else if i == 10 {
        assert s[11] == time[0];
      } else {
        assert s[i] == time[i - 11];
      }
    }
    ContainsIff(s, DashSeparator);
  }

  /** A level without spaces cannot run into the separator that follows it. */
  lemma SpacelessLevelFree(level: string)
    requires ' ' !in level
    ensures !Contains(level + " -", DashSeparator)
  {
    var s := level + " -";
    forall i | 0 <= i && i + 3 <= |s|
      ensures !OccursAt(s, DashSeparator, i)
    {
      assert s[i..i + 3][0] == s[i] == level[i];
    }
    ContainsIff(s, DashSeparator);
  }

  /** A dash where the level word should start defeats the pattern. */
  lemma DashDefeatsPattern(t: string)
    requires |t| > 20 && t[20] == '-'
    ensures SpaceMatch(t) == None
  {
    assert WordRun(t, 20) == 0;
  }

  /** The split of `DATE TIME - LEVEL - MESSAGE` into its three pieces. */
  lemma DashLineSplit(date: string, time: string, level: string, message: string)
    requires IsDate(date) && IsTime(time)
    requires !Contains(level + " -", DashSeparator) && !Contains(message, DashSeparator)
    ensures Split(date + " " + time + DashSeparator + level + DashSeparator + message, DashSeparator)
            == [date + " " + time, level, message]
  {
    var stamp := date + " " + time;
    StampFreeOfSeparator(date, time);
    assert DashSeparator[..2] == " -";
    assert stamp + DashSeparator + level + DashSeparator + message
           == stamp + DashSeparator + (level + DashSeparator + message);
    SplitAtFirst(stamp, DashSeparator, level + DashSeparator + message);
    SplitAtFirst(level, DashSeparator, message);
    SplitWithout(message, DashSeparator);
  }

  /** A line `DATE TIME - LEVEL - MESSAGE`, with level and message free of
      the separator (the level also across its end), fails the pattern
      (a dash stands where the level word should start) and is split into
      the timestamp, the trimmed upper-cased level and the trimmed message. */
  lemma DashFormatRoundTrip(decode: Decoder, date: string, time: string, level: string, message: string)
    requires IsDate(date) && IsTime(time)
    requires !Contains(level + " -", DashSeparator) && !Contains(message, DashSeparator)
    requires message != [] && !IsSpace(message[|message| - 1])
    requires decode(date + " " + time + DashSeparator + level + DashSeparator + message) == None
    ensures ParseLine(decode, date + " " + time + DashSeparator + level + DashSeparator + message)
            == Parsed(Rec(date + " " + time, Upper(Strip(level)), Strip(message)))
  {
    var stamp := date + " " + time;
    var t := stamp + DashSeparator + level + DashSeparator + message;
    DashLineStripped(date, time, level, message);
    DashDefeatsPattern(t);
    DashLineSplit(date, time, level, message);
    DashSplitOf(decode, t, stamp, level, message);
  }

  /** The dash-separated line has no surrounding space, and the dash after the
      timestamp stands where the pattern wants the level word. */
  lemma DashLineStripped(date: string, time: string, level: string, message: string)
    requires IsDate(date) && IsTime(time)
    requires message != [] && !IsSpace(message[|message| - 1])
    ensures var t := date + " " + time + DashSeparator + level + DashSeparator + message;
      Strip(t) == t && |t| > 20 && t[20] == '-'
    ensures Strip(date + " " + time) == date + " " + time
  {
    var stamp := date + " " + time;
    var t := stamp + DashSeparator + level + DashSeparator + message;
    assert t[0] == date[0] && IsDigit(t[0]);
    assert t[|t| - 1] == message[|message| - 1];
    StripKeeps(t);
    assert t[20] == DashSeparator[1];
    assert stamp[0] == date[0] && stamp[18] == time[7];
    StripKeeps(stamp);
  }

  /** A stripped line that fails JSON and the pattern and splits into three
      pieces is read by the dash branch. */
  lemma DashSplitOf(decode: Decoder, t: string, stamp: string, level: string, message: string)
    requires Strip(t) == t && t != [] && decode(t) == None && SpaceMatch(t) == None
    requires Split(t, DashSeparator) == [stamp, level, message] && Strip(stamp) == stamp
    ensures ParseLine(decode, t) == Parsed(Rec(stamp, Upper(Strip(level)), Strip(message)))
  {
  }

  /** The sample line named in the comment of the dash-separated branch. */
  lemma DashExample(decode: Decoder)
    requires decode("2025-08-13 15:22:01 - INFO - Some message") == None
    ensures ParseLine(decode, "2025-08-13 15:22:01 - INFO - Some message")
            == Parsed(Rec("2025-08-13 15:22:01", "INFO", "Some message"))
  {
    var date, time, level, message := "2025-08-13", "15:22:01", "INFO", "Some message";
    DashExamplePieces(date, time, level, message);
    DashExampleLine(date, time, level, message);
    SpacelessLevelFree(level);
    MissingCharNotContained(message, DashSeparator, 1);
    DashFormatRoundTrip(decode, date, time, level, message);
  }

  lemma DashExamplePieces(date: string, time: string, level: string, message: string)
    requires date == "2025-08-13" && time == "15:22:01" && level == "INFO" && message == "Some message"
    ensures IsDate(date) && IsTime(time) && ' ' !in level && DashSeparator[1] !in message
    ensures message != [] && !IsSpace(message[|message| - 1])
    ensures Strip(level) == level && Upper(level) == level && Strip(message) == message
  {
    ExampleStamp(date, time);
    ExampleLevel(level);
    ExampleMessage(message);
  }

  lemma ExampleStamp(date: string, time: string)
    requires date == "2025-08-13" && time == "15:22:01"
    ensures IsDate(date) && IsTime(time)
  {
  }

  lemma ExampleLevel(level: string)
    requires level == "INFO"
    ensures ' ' !in level && Strip(level) == level && Upper(level) == level
  {
    StripKeeps(level);
  }

  lemma ExampleMessage(message: string)
    requires message == "Some message"
    ensures DashSeparator[1] !in message && message != [] && !IsSpace(message[|message| - 1])
    ensures Strip(message) == message
  {
    StripKeeps(message);
  }

  lemma DashExampleLine(date: string, time: string, level: string, message: string)
    requires date == "2025-08-13" && time == "15:22:01" && level == "INFO" && message == "Some message"
    ensures date + " " + time + DashSeparator + level + DashSeparator + message
            == "2025-08-13 15:22:01 - INFO - Some message"
    ensures date + " " + time == "2025-08-13 15:22:01"
  {
  }

  /** Four dash-separated segments are ambiguous and the line is dropped. */
  lemma FourSegmentsDropped(decode: Decoder)
    requires decode("a - b - c - d") == None
    ensures ParseLine(decode, "a - b - c - d") == Dropped
  {
    var a, b, c, d := "a", "b", "c", "d";
    var t := a + DashSeparator + b + DashSeparator + c + DashSeparator + d;
    FourSegmentsLine(a, b, c, d);
    StripKeeps(t);
    FourPieces(a, b, c, d);
  }

  lemma FourSegmentsLine(a: string, b: string, c: string, d: string)
    requires a == "a" && b == "b" && c == "c" && d == "d"
    ensures a + DashSeparator + b + DashSeparator + c + DashSeparator + d == "a - b - c - d"
    ensures ' ' !in a && ' ' !in b && ' ' !in c && DashSeparator[0] !in d
    ensures !IsSpace(a[0]) && !IsSpace(d[0])
  {
  }

  /** Three spaceless pieces and a last one free of the separator split into four. */
  lemma FourPieces(a: string, b: string, c: string, d: string)
    requires ' ' !in a && ' ' !in b && ' ' !in c && !Contains(d, DashSeparator)
    ensures |Split(a + DashSeparator + b + DashSeparator + c + DashSeparator + d, DashSeparator)| == 4
  {
    SpacelessLevelFree(a);
    SpacelessLevelFree(b);
    SpacelessLevelFree(c);
    assert DashSeparator[..2] == " -";
    var t := a + DashSeparator + (b + DashSeparator + (c + DashSeparator + d));
    assert t == a + DashSeparator + b + DashSeparator + c + DashSeparator + d;
    SplitAtFirst(a, DashSeparator, b + DashSeparator + (c + DashSeparator + d));
    SplitAtFirst(b, DashSeparator, c + DashSeparator + d);
    SplitAtFirst(c, DashSeparator, d);
    SplitWithout(d, DashSeparator);
  }

  // ----- parse_log_file -----

  /** Python's normalisation of the start index of `lines[-n:]` for a list of length `len`. */
  function SliceStart(len: nat, n: int): (start: nat)
    ensures start <= len
  {
    if -n < 0 then (if -n + len < 0 then 0 else -n + len)
    else if -n > len then len
    else -n
  }

  /** The lines `parse_log_file` keeps: `lines[-n:]` when `last_n_lines` is truthy,
      all of them otherwise. A positive n keeps the last min(n, |lines|) lines;
      a negative n (which no caller passes) drops the first |n|. */
  function Tail(lines: seq<string>, lastN: Option<int>): (kept: seq<string>)
    ensures lastN == None || lastN == Some(0) ==> kept == lines
    ensures lastN.Some? && lastN.value > 0 ==>
      var k := if lastN.value < |lines| then lastN.value else |lines|;
      |kept| == k && kept == lines[|lines| - k..]
    ensures lastN.Some? && lastN.value < 0 ==>
      var d := if -lastN.value < |lines| then -lastN.value else |lines|;
      kept == lines[d..]
  {
    if lastN.Some? && lastN.value != 0 then lines[SliceStart(|lines|, lastN.value)..] else lines
  }

  /** The per-line outcomes of a list of lines. */
  function Outcomes(decode: Decoder, lines: seq<string>): (outs: seq<Outcome>)
    ensures |outs| == |lines|
    ensures forall i :: 0 <= i < |lines| ==> outs[i] == ParseLine(decode, lines[i])
  {
    seq(|lines|, i requires 0 <= i < |lines| => ParseLine(decode, lines[i]))
  }

  /** The loop of `parse_log_file` over per-line outcomes: the records in order,
      or the exception of the first line that raises. */
  function Collect(outs: seq<Outcome>): Result<seq<Rec>, Fault>
    decreases |outs|
  {
    if outs == [] then Success([])
    else
      var n := |outs| - 1;
      match Collect(outs[..n])
      case Failure(f) => Failure(f)
      case Success(acc) =>
        match outs[n]
        case Parsed(r) => Success(acc + [r])
        case Dropped => Success(acc)
        case Failed(f) => Failure(f)
  }

  /** The batch parse of already-read lines. */
  function ParseAll(decode: Decoder, lines: seq<string>): Result<seq<Rec>, Fault> {
    Collect(Outcomes(decode, lines))
  }

  /** The positions of the outcomes that are records, in increasing order. */
  function ParsedIndices(outs: seq<Outcome>): seq<nat>
    decreases |outs|
  {
    if outs == [] then []
    else
      var n := |outs| - 1;
      var prev := ParsedIndices(outs[..n]);
      if outs[n].Parsed? then prev + [n] else prev
  }

  /** `ParsedIndices` lists, in increasing order, exactly the positions holding a record. */
  lemma {:induction false} ParsedIndicesSpec(outs: seq<Outcome>)
    ensures var idx := ParsedIndices(outs);
      && (forall k :: 0 <= k < |idx| ==> idx[k] < |outs| && outs[idx[k]].Parsed?)
      && (forall k, l :: 0 <= k < l < |idx| ==> idx[k] < idx[l])
      && (forall i :: 0 <= i < |outs| && outs[i].Parsed? ==> i in idx)
    decreases |outs|
  {
    if outs != [] {
      var n := |outs| - 1;
      var prefix := outs[..n];
      ParsedIndicesSpec(prefix);
      assert forall i :: 0 <= i < n ==> prefix[i] == outs[i];
    }
  }

  /** A successful collection is exactly the records among the outcomes, in order. */
  lemma {:induction false} CollectSelects(outs: seq<Outcome>)
    requires Collect(outs).Success?
    ensures var out, idx := Collect(outs).value, ParsedIndices(outs);
      && |out| == |idx|
      && forall k :: 0 <= k < |idx| ==> idx[k] < |outs| && outs[idx[k]] == Parsed(out[k])
    decreases |outs|
  {
    ParsedIndicesSpec(outs);
    if outs != [] {
      var n := |outs| - 1;
      var prefix := outs[..n];
      CollectSelects(prefix);
      ParsedIndicesSpec(prefix);
      assert forall i :: 0 <= i < n ==> prefix[i] == outs[i];
    }
  }

  /** A collection that raises names the first outcome that raised. */
  lemma {:induction false} CollectFailureCause(outs: seq<Outcome>)
    requires Collect(outs).Failure?
    ensures exists i :: 0 <= i < |outs| && outs[i] == Failed(Collect(outs).error)
              && forall j :: 0 <= j < i ==> !outs[j].Failed?
    decreases |outs|
  {
    var n := |outs| - 1;
    var prefix := outs[..n];
    assert forall i :: 0 <= i < n ==> prefix[i] == outs[i];
    if Collect(prefix).Failure? {
      CollectFailureCause(prefix);
    } else {
      CollectNoFailure(prefix);
      assert outs[n] == Failed(Collect(outs).error);
    }
  }

  /** A successful collection met no outcome that raised. */
  lemma {:induction false} CollectNoFailure(outs: seq<Outcome>)
    requires Collect(outs).Success?
    ensures forall i :: 0 <= i < |outs| ==> !outs[i].Failed?
    decreases |outs|
  {
    if outs != [] {
      var n := |outs| - 1;
      var prefix := outs[..n];
      CollectNoFailure(prefix);
      assert forall i :: 0 <= i < n ==> prefix[i] == outs[i];
    }
  }

  /** Once a prefix has raised, the later outcomes change nothing. */
  lemma {:induction false} CollectStopsAtFailure(outs: seq<Outcome>, i: nat)
    requires i <= |outs| && Collect(outs[..i]).Failure?
    ensures Collect(outs) == Collect(outs[..i])
    decreases |outs| - i
  {
    if i < |outs| {
      assert outs[..i + 1][..i] == outs[..i];
      CollectStopsAtFailure(outs, i + 1);
    } else {
      assert outs[..i] == outs;
    }
  }

  /** The batch parse keeps, in input order, exactly the records of the lines that
      parse (so never more records than lines); it raises exactly when some line
      raises, with the exception of the first such line. */
  lemma ParseAllSpec(decode: Decoder, lines: seq<string>)
    ensures var res, outs := ParseAll(decode, lines), Outcomes(decode, lines);
      var idx := ParsedIndices(outs);
      && (res.Success? ==>
            && |res.value| == |idx| <= |lines|
            && (forall k, l :: 0 <= k < l < |idx| ==> idx[k] < idx[l])
            && (forall k :: 0 <= k < |idx| ==> idx[k] < |lines| && ParseLine(decode, lines[idx[k]]) == Parsed(res.value[k]))
            && (forall i :: 0 <= i < |lines| && ParseLine(decode, lines[i]).Parsed? ==> i in idx)
            && (forall i :: 0 <= i < |lines| ==> !ParseLine(decode, lines[i]).Failed?))
      && (res.Failure? ==>
            exists i :: 0 <= i < |lines| && ParseLine(decode, lines[i]) == Failed(res.error)
              && forall j :: 0 <= j < i ==> !ParseLine(decode, lines[j]).Failed?)
  {
    var outs := Outcomes(decode, lines);
    ParsedIndicesSpec(outs);
    if Collect(outs).Success? {
      CollectSelects(outs);
      CollectNoFailure(outs);
      IndicesBound(ParsedIndices(outs), |lines|);
    } else {
      CollectFailureCause(outs);
    }
  }

  /** Strictly increasing positions below `n` number at most `n`. */
  lemma {:induction false} IndicesBound(idx: seq<nat>, n: nat)
    requires forall k :: 0 <= k < |idx| ==> idx[k] < n
    requires forall k, l :: 0 <= k < l < |idx| ==> idx[k] < idx[l]
    ensures |idx| <= n
    decreases n
  {
    if idx != [] {
      var last := idx[|idx| - 1];
      IndicesBound(idx[..|idx| - 1], last);
    }
  }

  /** `parse_log_file` on the lines already read from the file: optional tail
      truncation of the raw lines, then the loop that keeps each parsed record. */
  method ParseFile(decode: Decoder, lines: seq<string>, lastN: Option<int>) returns (result: Result<seq<Rec>, Fault>)
    ensures result == ParseAll(decode, Tail(lines, lastN))
  {
    var kept := lines;
    if lastN.Some? && lastN.value != 0 {
      kept := lines[SliceStart(|lines|, lastN.value)..];
    }
    ghost var outs := Outcomes(decode, kept);
    var parsedLogs: seq<Rec> := [];
    for i := 0 to |kept|
      invariant Collect(outs[..i]) == Success(parsedLogs)
    {
      var outcome := ParseLine(decode, kept[i]);
      CollectStep(outs, i, parsedLogs);
      match outcome {
        case Parsed(r) =>
          parsedLogs := parsedLogs + [r];
        case Dropped =>
        case Failed(f) =>
          CollectStopsAtFailure(outs, i + 1);
          return Failure(f);
      }
    }
    assert outs[..|kept|] == outs;
    return Success(parsedLogs);
  }

  /** One more outcome after a prefix that raised nothing. */
  lemma CollectStep(outs: seq<Outcome>, i: nat, acc: seq<Rec>)
    requires i < |outs| && Collect(outs[..i]) == Success(acc)
    ensures outs[i].Parsed? ==> Collect(outs[..i + 1]) == Success(acc + [outs[i].rec])
    ensures outs[i].Dropped? ==> Collect(outs[..i + 1]) == Success(acc)
    ensures outs[i].Failed? ==> Collect(outs[..i + 1]) == Failure(outs[i].fault)
  {
    assert outs[..i + 1][..i] == outs[..i];
  }

  /** With a tail of 2 over five lines that all parse, the result is the records
      of the last two lines, in their order. */
  lemma TailOfFive(decode: Decoder, lines: seq<string>)
    requires |lines| == 5 && forall i :: 0 <= i < 5 ==> ParseLine(decode, lines[i]).Parsed?
    ensures ParseAll(decode, Tail(lines, Some(2)))
            == Success([ParseLine(decode, lines[3]).rec, ParseLine(decode, lines[4]).rec])
  {
    var kept := Tail(lines, Some(2));
    assert |kept| == 2 && kept[0] == lines[3] && kept[1] == lines[4];
    var outs := Outcomes(decode, kept);
    assert outs[0] == ParseLine(decode, lines[3]) && outs[1] == ParseLine(decode, lines[4]);
    CollectLastTwo(outs);
  }

  lemma CollectLastTwo(outs: seq<Outcome>)
    requires |outs| == 2 && outs[0].Parsed? && outs[1].Parsed?
    ensures Collect(outs) == Success([outs[0].rec, outs[1].rec])
  {
    assert outs == [outs[0], outs[1]];
    CollectTwo(outs[0], outs[1]);
  }

  lemma CollectTwo(a: Outcome, b: Outcome)
    requires a.Parsed? && b.Parsed?
    ensures Collect([a, b]) == Success([a.rec, b.rec])
  {
    var one := [a];
    assert one[..0] == [];
    assert Collect(one[..0]) == Success([]);
    assert one[0] == a && [] + [a.rec] == [a.rec];
    assert Collect(one) == Success([a.rec]);
    var two := [a, b];
    assert two[..1] == one;
    assert [a.rec] + [b.rec] == [a.rec, b.rec];
  }
}
