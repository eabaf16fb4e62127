/** The append-only journal: hash-chained lines, torn-tail repair on open, action pairing. */
module Journal {
  import opened Wrappers
  import opened Bytes

  const MAX_JOURNAL_BYTES: nat := 64 * 1024 * 1024
  const NEWLINE: byte := 10
  const CARRIAGE_RETURN: byte := 13

  /** Text fields: each character stands for one byte of the UTF-8 text. `number` is the source's `seq`. */
  datatype Record = Record(
    number: nat, prev: string, time: string, phase: string, state: string,
    device: Option<string>, devicePath: Option<string>, planHash: Option<string>,
    action: Option<string>, actionStatus: Option<string>, actionErrors: Option<u64>,
    actionDetails: Option<Json>, message: Option<string>, plan: Option<Json>)

  /** An embedded JSON document, by its text. */
  datatype Json = Json(text: string)

  /** A line as parsed: its record, and the optional keys that were spelled out with a `null`. */
  datatype JsonLine = JsonLine(record: Record, nulls: set<string>)

  datatype ParsedRecord = ParsedRecord(raw: seq<byte>, value: JsonLine)

  /** The JSON writer and reader, the UTF-8 check and the line digest. */
  datatype Codec = Codec(
    ser: Record -> seq<byte>,
    parse: seq<byte> -> Option<JsonLine>,
    utf8: seq<byte> -> bool,
    digest: seq<byte> -> string)
  {
    ghost predicate Sound() {
      && (forall r :: parse(ser(r)) == Some(JsonLine(r, {})))
      && (forall r :: ser(r) != [] && NEWLINE !in ser(r) && ser(r)[|ser(r)| - 1] != CARRIAGE_RETURN)
      && utf8([])
      && (forall text, r :: utf8(text) ==> utf8(text + Line(ser(r))))
    }
  }

  function Line(raw: seq<byte>): seq<byte> { raw + [NEWLINE] }

  // ----- Validation -----

  predicate ValidDigest(value: string) {
    && |value| == 71 && value[..7] == "sha256:"
    && forall i :: 7 <= i < 71 ==> '0' <= value[i] <= '9' || 'a' <= value[i] <= 'f' || 'A' <= value[i] <= 'F'
  }

  predicate ValidToken(value: string) {
    && 0 < |value| <= 128
    && forall i :: 0 <= i < |value| ==> 'a' <= value[i] <= 'z' || '0' <= value[i] <= '9' || value[i] in "-_"
  }

  predicate Given<T(!new)>(field: Option<T>, p: T -> bool) { field.Some? ==> p(field.value) }

  predicate ActionStatusValid(status: Option<string>) {
    && status.Some?
    && status.value in {"ok", "error", "failed", "partial", "found", "skipped", "fallback"}
  }

  function ValidateRecord(r: Record, line: nat): Result<()> {
    if (line == 1 && r.state != "locked") || (line > 1 && r.state == "locked") then Err(Invalid)
    else if !ValidToken(r.phase) || !ValidToken(r.state) then Err(Invalid)
    else if !(0 < |r.time| <= 64 && forall i :: 0 <= i < |r.time| ==> '!' <= r.time[i] <= '~') then Err(Invalid)
    else if !Given(r.planHash, ValidDigest) || !Given(r.device, ValidDigest) then Err(Invalid)
    else if !Given(r.action, ValidToken) then Err(Invalid)
    else if r.devicePath.Some?
        && (|r.devicePath.value| == 0 || |r.devicePath.value| > 4096 || '\0' in r.devicePath.value)
    then Err(Invalid)
    else if r.message.Some? && (|r.message.value| > 16 * 1024 || '\0' in r.message.value) then Err(Invalid)
    else if r.plan.Some? && r.state != "locked" && r.state != "fallback-plan" then Err(Invalid)
    else if r.state == "locked"
            && (r.plan.None? || r.planHash.None? || r.device.None? || r.devicePath.None?) then Err(Invalid)
    else if r.state == "fallback-plan" && (r.plan.None? || r.planHash.None?) then Err(Invalid)
    else if r.state == "action-started" && (r.action.None? || r.planHash.None?) then Err(Invalid)
    else if r.state == "action-completed"
            && (r.action.None? || r.planHash.None? || r.actionErrors.None? || !ActionStatusValid(r.actionStatus))
    then Err(Invalid)
    else if r.state in {"outputs-created", "outputs-restarted"} && (r.planHash.None? || r.actionDetails.None?)
    then Err(Invalid)
    else Ok(())
  }

  predicate Started(r: Record) { r.state == "action-started" && r.planHash.Some? && r.action.Some? }

  predicate Completed(r: Record) { r.state == "action-completed" && r.planHash.Some? && r.action.Some? }

  type Key = (string, string)

  function KeyOf(r: Record): Key
    requires Started(r) || Completed(r)
  {
    (r.planHash.value, r.action.value)
  }

  // ----- Reading -----

  /** What the reader carries from line to line. */
  datatype Chain = Chain(records: seq<ParsedRecord>, prev: string, started: set<Key>)

  const EMPTY_CHAIN: Chain := Chain([], "", {})

  /** Whether a completion has a start left to consume. */
  predicate Pairs(started: set<Key>, r: Record) { Completed(r) ==> KeyOf(r) in started }

  function StartedAfter(started: set<Key>, r: Record): set<Key> {
    if Started(r) then started + {KeyOf(r)} else if Completed(r) then started - {KeyOf(r)} else started
  }

  function AcceptLine(c: Codec, chain: Chain, raw: seq<byte>): Result<Chain> {
    match c.parse(raw)
    case None => Err(Invalid)
    case Some(value) =>
      var r := value.record;
      if r.number != |chain.records| || r.prev != chain.prev then Err(Invalid)
      else
        var _ :- ValidateRecord(r, |chain.records| + 1);
        if !Pairs(chain.started, r) then Err(Invalid)
        else Ok(Chain(chain.records + [ParsedRecord(raw, value)], c.digest(raw), StartedAfter(chain.started, r)))
  }

  function AcceptLines(c: Codec, lines: seq<seq<byte>>): (r: Result<Chain>)
    ensures r.Ok? ==> |r.value.records| == |lines|
    ensures r.Ok? ==> forall i :: 0 <= i < |lines| ==>
                        r.value.records[i].raw == lines[i] && c.parse(lines[i]) == Some(r.value.records[i].value)
  {
    if lines == [] then Ok(EMPTY_CHAIN)
    else
      var chain :- AcceptLines(c, lines[..|lines| - 1]);
      AcceptLine(c, chain, lines[|lines| - 1])
  }

  /** The length of the newline-terminated part. */
  function CommittedLength(bytes: seq<byte>): (n: nat)
    ensures n <= |bytes|
    ensures n > 0 ==> bytes[n - 1] == NEWLINE
    ensures NEWLINE !in bytes[n..]
  {
    if bytes == [] then 0
    else if bytes[|bytes| - 1] == NEWLINE then |bytes|
    else
      var n := CommittedLength(bytes[..|bytes| - 1]);
      assert bytes[n..] == bytes[..|bytes| - 1][n..] + [bytes[|bytes| - 1]];
      n
  }

  function FirstNewline(s: seq<byte>): (i: nat)
    ensures i <= |s| && NEWLINE !in s[..i] && (i < |s| ==> s[i] == NEWLINE)
  {
    if s == [] || s[0] == NEWLINE then 0
    else
      var i := 1 + FirstNewline(s[1..]);
      assert s[..i] == [s[0]] + s[1..][..i - 1];
      i
  }

  function StripReturn(line: seq<byte>): seq<byte> {
    if line != [] && line[|line| - 1] == CARRIAGE_RETURN then line[..|line| - 1] else line
  }

  /** The lines of newline-terminated text, without their LF or CRLF. */
  function Lines(content: seq<byte>): seq<seq<byte>>
    decreases |content|
  {
    if content == [] then []
    else
      var i := FirstNewline(content);
      if i == |content| then [content] else [StripReturn(content[..i])] + Lines(content[i + 1..])
  }

  function ParseRecords(c: Codec, bytes: seq<byte>): Result<Chain> {
    var content := bytes[..CommittedLength(bytes)];
    if !c.utf8(content) then Err(Invalid) else AcceptLines(c, Lines(content))
  }

  lemma {:induction false} RefusedPrefix(c: Codec, lines: seq<seq<byte>>, n: nat)
    requires n <= |lines| && AcceptLines(c, lines[..n]).Err?
    ensures AcceptLines(c, lines) == AcceptLines(c, lines[..n])
  {
    if n == |lines| {
      assert lines[..n] == lines;
    } else {
      assert lines[..|lines| - 1][..n] == lines[..n];
      RefusedPrefix(c, lines[..|lines| - 1], n);
    }
  }

  lemma NoLines(c: Codec, lines: seq<seq<byte>>)
    ensures AcceptLines(c, lines[..0]) == Ok(EMPTY_CHAIN)
  {
  }

  lemma StartIsNoCompletion(r: Record)
    requires Started(r)
    ensures !Completed(r)
  {
  }

  /** One line more: accepted as a whole, or the reason why nothing that starts like this is. */
  lemma OneMoreLine(c: Codec, lines: seq<seq<byte>>, i: nat)
    requires i < |lines| && AcceptLines(c, lines[..i]).Ok?
    ensures AcceptLines(c, lines[..i + 1]) == AcceptLine(c, AcceptLines(c, lines[..i]).value, lines[i])
    ensures AcceptLines(c, lines[..i + 1]).Err? ==> AcceptLines(c, lines) == AcceptLines(c, lines[..i + 1])
  {
    hide AcceptLine;
    assert lines[..i + 1][..i] == lines[..i] && lines[..i + 1][i] == lines[i];
    if AcceptLines(c, lines[..i + 1]).Err? {
      RefusedPrefix(c, lines, i + 1);
    }
  }

  method ReadRecords(c: Codec, bytes: seq<byte>) returns (r: Result<seq<ParsedRecord>>)
    ensures match ParseRecords(c, bytes)
            case Ok(chain) => r == Ok(chain.records)
            case Err(e) => r == Err(e)
  {
    hide ValidateRecord, Lines, CommittedLength, AcceptLines, KeyOf, Started, Completed;
    var content := bytes[..CommittedLength(bytes)];
    if !c.utf8(content) {
      return Err(Invalid);
    }
    var lines := Lines(content);
    var out: seq<ParsedRecord> := [];
    var prevHash := "";
    var startedActions: set<Key> := {};
    NoLines(c, lines);
    for i := 0 to |lines|
      invariant AcceptLines(c, lines[..i]) == Ok(Chain(out, prevHash, startedActions))
      invariant |out| == i
    {
      var line := lines[i];
      OneMoreLine(c, lines, i);
      var value := c.parse(line);
      if value.None? {
        return Err(Invalid);
      }
      var record := value.value.record;
      if record.number != i || record.prev != prevHash {
        return Err(Invalid);
      }
      var valid := ValidateRecord(record, i + 1);
      if valid.Err? {
        return Err(valid.error);
      }
      if Started(record) {
        StartIsNoCompletion(record);
        startedActions := startedActions + {KeyOf(record)};
      } else if Completed(record) {
        if KeyOf(record) !in startedActions {
          return Err(Invalid);
        }
        startedActions := startedActions - {KeyOf(record)};
      }
      prevHash := c.digest(line);
      out := out + [ParsedRecord(line, value.value)];
    }
    assert lines[..|lines|] == lines;
    return Ok(out);
  }

  // ----- Writing -----

  class JournalFile {
    var data: seq<byte>
  }

  /** The sequence number and previous hash that opening a file recovers. */
  function Recover(c: Codec, bytes: seq<byte>): Result<(nat, string)> {
    if |bytes| > MAX_JOURNAL_BYTES then Err(Invalid)
    else
      var chain :- ParseRecords(c, bytes);
      if chain.records == [] then Ok((0, ""))
      else
        var last := chain.records[|chain.records| - 1];
        Ok((last.value.record.number + 1, c.digest(last.raw)))
  }

  /** The record that a journal at (`number`, `prev`) writes for the caller's fields. */
  function Stamped(fields: Record, number: nat, prev: string): Record {
    fields.(number := number, prev := prev)
  }

  class JournalWriter {
    const file: JournalFile
    var number: nat
    var prevHash: string

    constructor (file: JournalFile, number: nat, prevHash: string)
      ensures this.file == file && this.number == number && this.prevHash == prevHash
    {
      this.file := file;
      this.number := number;
      this.prevHash := prevHash;
    }

    /** Append one record. `fault` is the number of bytes written before an I/O error, if there is one. */
    method RecordEntry(c: Codec, fields: Record, fault: Option<nat>) returns (r: Result<()>)
      requires fault.Some? ==> fault.value <= |Line(c.ser(Stamped(fields, number, prevHash)))|
      modifies this, file
      ensures var rec := Stamped(fields, old(number), old(prevHash));
              match ValidateRecord(rec, old(number) + 1)
              case Err(e) =>
                r == Err(e) && file.data == old(file.data) && number == old(number) && prevHash == old(prevHash)
              case Ok(_) =>
                var line := Line(c.ser(rec));
                match fault
                case Some(k) =>
                  r == Err(Io) && file.data == old(file.data) + line[..k]
                  && number == old(number) && prevHash == old(prevHash)
                case None =>
                  r == Ok(()) && file.data == old(file.data) + line
                  && number == old(number) + 1 && prevHash == c.digest(c.ser(rec))
    {
      var rec := Stamped(fields, number, prevHash);
      var valid := ValidateRecord(rec, number + 1);
      if valid.Err? {
        return Err(valid.error);
      }
      var line := Line(c.ser(rec));
      if fault.Some? {
        file.data := file.data + line[..fault.value];
        return Err(Io);
      }
      file.data := file.data + line;
      assert line[..|line| - 1] == c.ser(rec);
      prevHash := c.digest(line[..|line| - 1]);
      number := number + 1;
      return Ok(());
    }
  }

  /** Recover the chain of an existing journal and cut off a torn final append. */
  method Open(c: Codec, file: JournalFile) returns (r: Result<JournalWriter>)
    modifies file
    ensures match Recover(c, old(file.data))
            case Err(e) => r == Err(e) && file.data == old(file.data)
            case Ok(at) =>
              && r.Ok? && fresh(r.value)
              && r.value.file == file && (r.value.number, r.value.prevHash) == at
              && file.data == old(file.data)[..CommittedLength(old(file.data))]
  {
    var bytes := file.data;
    if |bytes| > MAX_JOURNAL_BYTES {
      return Err(Invalid);
    }
    var existing :- ReadRecords(c, bytes);
    if bytes != [] && bytes[|bytes| - 1] != NEWLINE {
      file.data := bytes[..CommittedLength(bytes)];
    }
    var number, prev := 0, "";
    if existing != [] {
      var last := existing[|existing| - 1];
      number, prev := last.value.record.number + 1, c.digest(last.raw);
    }
    var writer := new JournalWriter(file, number, prev);
    return Ok(writer);
  }

  // ----- Summaries -----

  datatype Summary = Summary(
    plan: Option<Json>, planHash: Option<string>, device: Option<string>, devicePath: Option<string>,
    fallbackPlan: Option<Json>, lastCompleted: Option<string>, completed: seq<Key>)

  const EMPTY_SUMMARY: Summary := Summary(None, None, None, None, None, None, [])

  /** The latest value of a key: an explicit null clears it, an absent key keeps it. */
  function Latest(nulls: set<string>, name: string, field: Option<string>, before: Option<string>): Option<string> {
    if field.Some? || name in nulls then field else before
  }

  method Summarize(c: Codec, bytes: seq<byte>) returns (r: Result<Summary>)
    ensures match ParseRecords(c, bytes)
            case Err(e) => r == Err(e)
            case Ok(chain) => r == SummaryOf(chain.records)
  {
    var records :- ReadRecords(c, bytes);
    var s := EMPTY_SUMMARY;
    for i := 0 to |records|
      invariant SummaryOf(records[..i]) == Ok(s)
    {
      var value := records[i].value;
      var record := value.record;
      assert records[..i + 1][..i] == records[..i];
      if SummaryOf(records[..i + 1]).Err? {
        SummaryRefusedPrefix(records, i + 1);
      }
      if record.state == "locked" {
        if record.plan.None? && "plan" !in value.nulls {
          return Err(Invalid);
        }
        if s.plan.Some? {
          return Err(Invalid);
        }
        s := s.(plan := Some(record.plan.GetOr(Json("null"))));
      }
      s := s.(planHash := Latest(value.nulls, "plan_hash", record.planHash, s.planHash),
              device := Latest(value.nulls, "device", record.device, s.device),
              devicePath := Latest(value.nulls, "device_path", record.devicePath, s.devicePath));
      if record.state == "fallback-plan" && (record.plan.Some? || "plan" in value.nulls) {
        s := s.(fallbackPlan := Some(record.plan.GetOr(Json("null"))));
      }
      if record.state == "action-completed" && record.action.Some? {
        s := s.(lastCompleted := record.action);
        if record.planHash.Some? {
          s := s.(completed := s.completed + [(record.planHash.value, record.action.value)]);
        }
      }
    }
    assert records[..|records|] == records;
    return Ok(s);
  }

  function SummaryStep(s: Summary, value: JsonLine): Result<Summary> {
    var record := value.record;
    var plan := Some(record.plan.GetOr(Json("null")));
    var hasPlan := record.plan.Some? || "plan" in value.nulls;
    if record.state == "locked" && (!hasPlan || s.plan.Some?) then Err(Invalid)
    else
      var done := record.state == "action-completed" && record.action.Some?;
      Ok(Summary(
           if record.state == "locked" then plan else s.plan,
           Latest(value.nulls, "plan_hash", record.planHash, s.planHash),
           Latest(value.nulls, "device", record.device, s.device),
           Latest(value.nulls, "device_path", record.devicePath, s.devicePath),
           if record.state == "fallback-plan" && hasPlan then plan else s.fallbackPlan,
           if done then record.action else s.lastCompleted,
           if done && record.planHash.Some? then s.completed + [(record.planHash.value, record.action.value)]
           else s.completed))
  }

  function SummaryOf(records: seq<ParsedRecord>): Result<Summary> {
    if records == [] then Ok(EMPTY_SUMMARY)
    else
      var s :- SummaryOf(records[..|records| - 1]);
      SummaryStep(s, records[|records| - 1].value)
  }

  lemma {:induction false} SummaryRefusedPrefix(records: seq<ParsedRecord>, n: nat)
    requires n <= |records| && SummaryOf(records[..n]).Err?
    ensures SummaryOf(records) == SummaryOf(records[..n])
  {
    if n == |records| {
      assert records[..n] == records;
    } else {
      assert records[..|records| - 1][..n] == records[..n];
      SummaryRefusedPrefix(records[..|records| - 1], n);
    }
  }
}
