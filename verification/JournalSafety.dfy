/** What a journal that reads back can be, and what survives of every run of writes, crashes and reopenings. */
module JournalSafety {
  import opened Wrappers
  import opened Bytes
  import opened Journal

  const NO_RECORD: Record := Record(0, "", "", "", "", None, None, None, None, None, None, None, None, None)

  function RecordOf(c: Codec, raw: seq<byte>): Record {
    match c.parse(raw)
    case None => NO_RECORD
    case Some(value) => value.record
  }

  /** The digest that line `i` must carry. */
  function PrevAt(c: Codec, lines: seq<seq<byte>>, i: nat): string
    requires i <= |lines|
  {
    if i == 0 then "" else c.digest(lines[i - 1])
  }

  ghost predicate LineFits(c: Codec, lines: seq<seq<byte>>, i: nat)
    requires i < |lines|
  {
    var r := RecordOf(c, lines[i]);
    c.parse(lines[i]).Some? && r.number == i && r.prev == PrevAt(c, lines, i) && ValidateRecord(r, i + 1).Ok?
  }

  predicate Starts(r: Record, key: Key) { Started(r) && KeyOf(r) == key }

  predicate Completes(r: Record, key: Key) { Completed(r) && KeyOf(r) == key }

  /** Before line `n`, `key` was started at line `j` and not completed since. */
  ghost predicate OpenSince(c: Codec, lines: seq<seq<byte>>, n: nat, key: Key, j: nat)
    requires n <= |lines|
  {
    && j < n && Starts(RecordOf(c, lines[j]), key)
    && forall k :: j < k < n ==> !Completes(RecordOf(c, lines[k]), key)
  }

  ghost predicate IsOpen(c: Codec, lines: seq<seq<byte>>, n: nat, key: Key)
    requires n <= |lines|
  {
    exists j :: OpenSince(c, lines, n, key, j)
  }

  /** Every completion consumes a start of its own plan and action that nothing has consumed. */
  ghost predicate CompletionPaired(c: Codec, lines: seq<seq<byte>>, i: nat)
    requires i < |lines|
  {
    var r := RecordOf(c, lines[i]);
    Completed(r) ==> IsOpen(c, lines, i, KeyOf(r))
  }

  /** Opening and closing by one line. */
  lemma OpenStep(c: Codec, lines: seq<seq<byte>>, n: nat, key: Key)
    requires n < |lines|
    ensures IsOpen(c, lines, n + 1, key) <==>
              Starts(RecordOf(c, lines[n]), key) || (IsOpen(c, lines, n, key) && !Completes(RecordOf(c, lines[n]), key))
  {
    if Starts(RecordOf(c, lines[n]), key) {
      assert OpenSince(c, lines, n + 1, key, n);
    } else if IsOpen(c, lines, n, key) && !Completes(RecordOf(c, lines[n]), key) {
      var j :| OpenSince(c, lines, n, key, j);
      assert OpenSince(c, lines, n + 1, key, j);
    } else if IsOpen(c, lines, n + 1, key) {
      var j :| OpenSince(c, lines, n + 1, key, j);
      assert OpenSince(c, lines, n, key, j);
    }
  }

  ghost predicate Accepted(c: Codec, lines: seq<seq<byte>>) {
    forall i :: 0 <= i < |lines| ==> LineFits(c, lines, i) && CompletionPaired(c, lines, i)
  }

  lemma PrefixSame(c: Codec, lines: seq<seq<byte>>, n: nat)
    requires n <= |lines|
    ensures forall i :: 0 <= i < n ==> LineFits(c, lines[..n], i) == LineFits(c, lines, i)
    ensures forall i, key :: 0 <= i <= n ==> IsOpen(c, lines[..n], i, key) == IsOpen(c, lines, i, key)
    ensures forall i :: 0 <= i < n ==> CompletionPaired(c, lines[..n], i) == CompletionPaired(c, lines, i)
  {
    forall i, key | 0 <= i <= n
      ensures IsOpen(c, lines[..n], i, key) == IsOpen(c, lines, i, key)
    {
      forall j: nat
        ensures OpenSince(c, lines[..n], i, key, j) == OpenSince(c, lines, i, key, j)
      {
      }
    }
  }

  /**
   * The reader accepts exactly the journals whose lines are numbered from zero, chained by digest, individually
   * valid and paired; it then holds precisely the keys still open.
   */
  lemma {:induction false} AcceptsIff(c: Codec, lines: seq<seq<byte>>)
    ensures AcceptLines(c, lines).Ok? <==> Accepted(c, lines)
    ensures AcceptLines(c, lines).Ok? ==>
              var chain := AcceptLines(c, lines).value;
              && chain.prev == PrevAt(c, lines, |lines|)
              && forall key :: key in chain.started <==> IsOpen(c, lines, |lines|, key)
  {
    hide ValidateRecord, AcceptLine, LineFits, CompletionPaired, IsOpen;
    if lines == [] {
      NothingOpen(c, lines);
    } else {
      var n := |lines| - 1;
      var before := lines[..n];
      AcceptsIff(c, before);
      PrefixSame(c, lines, n);
      assert AcceptLines(c, before).Ok?
             <==> forall i :: 0 <= i < n ==> LineFits(c, lines, i) && CompletionPaired(c, lines, i);
      if AcceptLines(c, before).Ok? {
        AcceptStep(c, lines, AcceptLines(c, before).value);
      }
    }
  }

  lemma NothingOpen(c: Codec, lines: seq<seq<byte>>)
    ensures forall key :: !IsOpen(c, lines, 0, key)
  {
  }

  /** The last line, read in the state that the lines before it lead to. */
  lemma AcceptStep(c: Codec, lines: seq<seq<byte>>, chain: Chain)
    requires lines != [] && |chain.records| == |lines| - 1 && chain.prev == PrevAt(c, lines, |lines| - 1)
    requires forall key :: key in chain.started <==> IsOpen(c, lines, |lines| - 1, key)
    ensures var n := |lines| - 1;
            AcceptLine(c, chain, lines[n]).Ok? <==> LineFits(c, lines, n) && CompletionPaired(c, lines, n)
    ensures var after := AcceptLine(c, chain, lines[|lines| - 1]);
            after.Ok? ==>
              && after.value.prev == PrevAt(c, lines, |lines|)
              && forall key :: key in after.value.started <==> IsOpen(c, lines, |lines|, key)
  {
    hide ValidateRecord;
    forall key
      ensures var r := RecordOf(c, lines[|lines| - 1]);
              IsOpen(c, lines, |lines|, key) <==> Starts(r, key) || (key in chain.started && !Completes(r, key))
    {
      OpenStep(c, lines, |lines| - 1, key);
    }
  }

  /** In an accepted journal the only locked plan is the first line, and it carries the plan. */
  lemma LockedIsFirst(c: Codec, lines: seq<seq<byte>>, i: nat)
    requires AcceptLines(c, lines).Ok? && i < |lines|
    ensures RecordOf(c, lines[i]).state == "locked" <==> i == 0
    ensures i == 0 ==> RecordOf(c, lines[i]).plan.Some?
  {
    AcceptsIff(c, lines);
    assert LineFits(c, lines, i);
  }

  // ----- The last line determines the history -----

  ghost predicate NoCollision(c: Codec, a: seq<seq<byte>>, b: seq<seq<byte>>) {
    forall i, j :: 0 <= i < |a| && 0 <= j < |b| && c.digest(a[i]) == c.digest(b[j]) ==> a[i] == b[j]
  }

  /** Two accepted journals of one length that end in the same line are the same journal. */
  lemma {:induction false} LastLineDeterminesHistory(c: Codec, a: seq<seq<byte>>, b: seq<seq<byte>>)
    requires AcceptLines(c, a).Ok? && AcceptLines(c, b).Ok? && NoCollision(c, a, b)
    requires |a| == |b| > 0 && a[|a| - 1] == b[|b| - 1]
    ensures a == b
  {
    var n := |a| - 1;
    if n > 0 {
      AcceptsIff(c, a);
      AcceptsIff(c, b);
      assert LineFits(c, a, n) && LineFits(c, b, n);
      assert c.digest(a[n - 1]) == c.digest(b[n - 1]);
      LastLineDeterminesHistory(c, a[..n], b[..n]);
    }
    assert a == a[..n] + [a[n]] && b == b[..n] + [b[n]];
  }

  // ----- Summaries -----

  function RecordsOf(parsed: seq<ParsedRecord>): seq<Record> {
    seq(|parsed|, i requires 0 <= i < |parsed| => parsed[i].value.record)
  }

  /** The completions of a journal, in order. */
  function Completions(parsed: seq<ParsedRecord>): seq<Key> {
    if parsed == [] then []
    else
      var r := parsed[|parsed| - 1].value.record;
      Completions(parsed[..|parsed| - 1]) + if Completed(r) then [KeyOf(r)] else []
  }

  /** The plan of the latest fallback record. */
  function LatestFallback(parsed: seq<ParsedRecord>): Option<Json> {
    if parsed == [] then None
    else
      var r := parsed[|parsed| - 1].value.record;
      if r.state == "fallback-plan" then r.plan else LatestFallback(parsed[..|parsed| - 1])
  }

  datatype TextKey = PlanHashKey | DeviceKey | DevicePathKey {
    function Name(): string {
      match this
      case PlanHashKey => "plan_hash"
      case DeviceKey => "device"
      case DevicePathKey => "device_path"
    }

    function Of(r: Record): Option<string> {
      match this
      case PlanHashKey => r.planHash
      case DeviceKey => r.device
      case DevicePathKey => r.devicePath
    }
  }

  /** The line spells out the key, with a text or with a null. */
  predicate Mentions(p: ParsedRecord, key: TextKey) {
    key.Of(p.value.record).Some? || key.Name() in p.value.nulls
  }

  /** `value` is what the last line that mentions the key says, and nothing if no line does. */
  predicate IsLatest(parsed: seq<ParsedRecord>, key: TextKey, value: Option<string>) {
    if exists k :: 0 <= k < |parsed| && Mentions(parsed[k], key)
    then exists k :: 0 <= k < |parsed| && LastMention(parsed, key, k) && value == key.Of(parsed[k].value.record)
    else value == None
  }

  predicate LastMention(parsed: seq<ParsedRecord>, key: TextKey, k: nat)
    requires k < |parsed|
  {
    Mentions(parsed[k], key) && forall j :: k < j < |parsed| ==> !Mentions(parsed[j], key)
  }

  lemma LatestGrows(parsed: seq<ParsedRecord>, p: ParsedRecord, key: TextKey, before: Option<string>)
    requires IsLatest(parsed, key, before)
    ensures IsLatest(parsed + [p], key, Latest(p.value.nulls, key.Name(), key.Of(p.value.record), before))
  {
    var after, n := parsed + [p], |parsed|;
    assert after[n] == p && forall k :: 0 <= k < n ==> after[k] == parsed[k];
    if Mentions(p, key) {
      assert LastMention(after, key, n);
    } else if exists k :: 0 <= k < n && Mentions(parsed[k], key) {
      var k :| 0 <= k < n && LastMention(parsed, key, k) && before == key.Of(parsed[k].value.record);
      assert LastMention(after, key, k);
    }
  }

  /**
   * Summarizing an accepted journal never fails: it gives the locked plan of line one whatever fallback follows,
   * the latest fallback plan, exactly the completions in order with the last of them, and for each of plan hash, device
   * and device path what the last line that mentions it says.
   */
  lemma {:induction false} SummaryIsExact(c: Codec, lines: seq<seq<byte>>)
    requires AcceptLines(c, lines).Ok?
    ensures var parsed := AcceptLines(c, lines).value.records;
            && SummaryOf(parsed).Ok?
            && SummaryOf(parsed).value.plan == (if lines == [] then None else RecordOf(c, lines[0]).plan)
            && SummaryOf(parsed).value.fallbackPlan == LatestFallback(parsed)
            && SummaryOf(parsed).value.completed == Completions(parsed)
    ensures var parsed := AcceptLines(c, lines).value.records;
            var s := SummaryOf(parsed).value;
            && s.lastCompleted == (if Completions(parsed) == [] then None
                                   else Some(Completions(parsed)[|Completions(parsed)| - 1].1))
            && IsLatest(parsed, PlanHashKey, s.planHash)
            && IsLatest(parsed, DeviceKey, s.device)
            && IsLatest(parsed, DevicePathKey, s.devicePath)
  {
    hide ValidateRecord, IsLatest, Latest;
    if lines == [] {
      NothingLatest();
    } else {
      var n := |lines| - 1;
      SummaryIsExact(c, lines[..n]);
      var parsed := AcceptLines(c, lines).value.records;
      var before := SummaryOf(parsed[..n]).value;
      assert parsed[..n] == AcceptLines(c, lines[..n]).value.records && parsed == parsed[..n] + [parsed[n]];
      assert parsed[n].value.record == RecordOf(c, lines[n]);
      LockedIsFirst(c, lines, n);
      LatestGrows(parsed[..n], parsed[n], PlanHashKey, before.planHash);
      LatestGrows(parsed[..n], parsed[n], DeviceKey, before.device);
      LatestGrows(parsed[..n], parsed[n], DevicePathKey, before.devicePath);
      ValidCompletion(c, lines, n);
    }
  }

  lemma NothingLatest()
    ensures forall key :: IsLatest([], key, None)
  {
  }

  /** An accepted completion names its action and plan hash, and an accepted fallback carries its plan. */
  lemma ValidCompletion(c: Codec, lines: seq<seq<byte>>, i: nat)
    requires AcceptLines(c, lines).Ok? && i < |lines|
    ensures RecordOf(c, lines[i]).state == "fallback-plan" ==> RecordOf(c, lines[i]).plan.Some?
    ensures RecordOf(c, lines[i]).state == "action-completed" <==> Completed(RecordOf(c, lines[i]))
  {
    AcceptsIff(c, lines);
    assert LineFits(c, lines, i);
  }

  // ----- Bytes on disk -----

  predicate Terminated(bytes: seq<byte>) { bytes == [] || bytes[|bytes| - 1] == NEWLINE }

  lemma {:induction false} FirstNewlineAppend(a: seq<byte>, b: seq<byte>)
    requires NEWLINE in a
    ensures FirstNewline(a + b) == FirstNewline(a) < |a|
  {
    if a[0] != NEWLINE {
      assert a == [a[0]] + a[1..] && (a + b)[1..] == a[1..] + b;
      FirstNewlineAppend(a[1..], b);
    }
  }

  lemma {:induction false} LinesAppend(a: seq<byte>, raw: seq<byte>)
    requires Terminated(a) && NEWLINE !in raw
    requires raw != [] && raw[|raw| - 1] != CARRIAGE_RETURN
    ensures Lines(a + Line(raw)) == Lines(a) + [raw]
    decreases |a|
  {
    hide Lines, FirstNewline, StripReturn;
    if a == [] {
      NoLines();
      assert a + Line(raw) == Line(raw);
      OneLine(raw);
    } else {
      FirstNewlineAppend(a, Line(raw));
      var i := FirstNewline(a);
      var rest := a[i + 1..];
      LinesAppend(rest, raw);
      LinesHead(a);
      LinesHead(a + Line(raw));
      assert (a + Line(raw))[..i] == a[..i];
      assert (a + Line(raw))[i + 1..] == rest + Line(raw);
    }
  }

  lemma NewlineFound(content: seq<byte>)
    requires NEWLINE in content
    ensures FirstNewline(content) < |content|
  {
    hide FirstNewline;
    assert content[..|content|] == content;
  }

  lemma LinesHead(content: seq<byte>)
    requires NEWLINE in content
    ensures var i := FirstNewline(content);
            i < |content| && Lines(content) == [StripReturn(content[..i])] + Lines(content[i + 1..])
  {
    hide StripReturn, FirstNewline;
    NewlineFound(content);
  }

  lemma NoLines()
    ensures Lines([]) == []
  {
  }

  lemma OneLine(raw: seq<byte>)
    requires NEWLINE !in raw && raw != [] && raw[|raw| - 1] != CARRIAGE_RETURN
    ensures Lines(Line(raw)) == [raw]
  {
    LinesHead(Line(raw));
    var i := FirstNewline(Line(raw));
    assert Line(raw)[..|raw|] == raw && Line(raw)[i + 1..] == [];
  }

  /** Lines written one under the other, each ended by a newline or by a carriage return and a newline. */
  function Text(lines: seq<seq<byte>>, ends: seq<bool>): seq<byte>
    requires |lines| == |ends|
  {
    if lines == [] then []
    else lines[0] + (if ends[0] then [13, 10] else [10]) + Text(lines[1..], ends[1..])
  }

  lemma {:induction false} FirstNewlineIs(a: seq<byte>, rest: seq<byte>)
    requires 10 !in a
    ensures FirstNewline(a + [10] + rest) == |a|
  {
    var s := a + [10] + rest;
    if a != [] {
      assert s[0] == a[0] && s[1..] == a[1..] + [10] + rest;
      FirstNewlineIs(a[1..], rest);
    }
  }

  lemma StripsBack(line: seq<byte>, crlf: bool)
    requires !crlf ==> line == [] || line[|line| - 1] != 13
    ensures StripReturn(if crlf then line + [13] else line) == line
  {
  }

  lemma OneMoreLineRead(line: seq<byte>, crlf: bool, rest: seq<byte>)
    requires 10 !in line && (!crlf ==> line == [] || line[|line| - 1] != 13)
    ensures Lines(line + (if crlf then [13, 10] else [10]) + rest) == [line] + Lines(rest)
  {
    hide FirstNewline, Lines, StripReturn;
    var front := if crlf then line + [13] else line;
    var content := front + [10] + rest;
    assert line + (if crlf then [13, 10] else [10]) + rest == content;
    StripsBack(line, crlf);
    FirstNewlineIs(front, rest);
    assert content[|front|] == 10;
    LinesHead(content);
    assert content[..|front|] == front && content[|front| + 1..] == rest;
  }

  /** Either line ending is read; a line without a newline may hold any byte but, before a bare newline, a final CR. */
  lemma {:induction false} LinesComeBack(lines: seq<seq<byte>>, ends: seq<bool>)
    requires |lines| == |ends| && forall i :: 0 <= i < |lines| ==> 10 !in lines[i]
    requires forall i :: 0 <= i < |lines| && !ends[i] ==> lines[i] == [] || lines[i][|lines[i]| - 1] != 13
    ensures Lines(Text(lines, ends)) == lines
    decreases |lines|
  {
    hide Lines;
    if lines == [] {
      NoLines();
    } else {
      LinesComeBack(lines[1..], ends[1..]);
      OneMoreLineRead(lines[0], ends[0], Text(lines[1..], ends[1..]));
    }
  }

  /** A tail without a newline is not committed. */
  lemma {:induction false} TornTail(a: seq<byte>, tail: seq<byte>)
    requires Terminated(a) && NEWLINE !in tail
    ensures CommittedLength(a + tail) == |a|
  {
    if tail == [] {
      assert a + tail == a;
    } else {
      var t := tail[..|tail| - 1];
      assert (a + tail)[..|a + tail| - 1] == a + t;
      assert tail == t + [tail[|tail| - 1]];
      TornTail(a, t);
    }
  }

  lemma WholeCommitted(bytes: seq<byte>)
    requires Terminated(bytes)
    ensures CommittedLength(bytes) == |bytes| && bytes[..|bytes|] == bytes
  {
  }

  // ----- Histories -----

  /** The history of a journal: the records committed so far. */
  type History = seq<Record>

  function PrevOf(c: Codec, h: History): string {
    if h == [] then "" else c.digest(c.ser(h[|h| - 1]))
  }

  function Encode(c: Codec, h: History): seq<byte> {
    if h == [] then [] else Encode(c, h[..|h| - 1]) + Line(c.ser(h[|h| - 1]))
  }

  function Serialized(c: Codec, h: History): (lines: seq<seq<byte>>)
    ensures |lines| == |h|
  {
    seq(|h|, i requires 0 <= i < |h| => c.ser(h[i]))
  }

  /** Numbered, chained and valid, as a writer leaves it; pairing is not included. */
  ghost predicate WellStamped(c: Codec, h: History) {
    forall i :: 0 <= i < |h| ==>
                  h[i].number == i && h[i].prev == PrevOf(c, h[..i]) && ValidateRecord(h[i], i + 1).Ok?
  }

  /** Every completion has an unconsumed start. */
  ghost predicate Paired(c: Codec, h: History) {
    forall i :: 0 <= i < |h| ==> CompletionPaired(c, Serialized(c, h), i)
  }

  lemma {:induction false} EncodeReads(c: Codec, h: History)
    requires c.Sound()
    ensures Terminated(Encode(c, h)) && c.utf8(Encode(c, h))
    ensures Lines(Encode(c, h)) == Serialized(c, h)
  {
    hide Lines;
    NoLines();
    if h != [] {
      var n := |h| - 1;
      EncodeReads(c, h[..n]);
      LinesAppend(Encode(c, h[..n]), c.ser(h[n]));
      assert Serialized(c, h) == Serialized(c, h[..n]) + [c.ser(h[n])];
    }
  }

  /** A written history reads back whole if and only if it is paired. */
  lemma HistoryReadsBackIff(c: Codec, h: History)
    requires c.Sound() && WellStamped(c, h)
    ensures ParseRecords(c, Encode(c, h)).Ok? <==> Paired(c, h)
    ensures Paired(c, h) ==> RecordsOf(ParseRecords(c, Encode(c, h)).value.records) == h
  {
    hide ValidateRecord, Lines;
    var bytes, lines := Encode(c, h), Serialized(c, h);
    EncodeReads(c, h);
    WholeCommitted(bytes);
    AcceptsIff(c, lines);
    forall i | 0 <= i < |h|
      ensures LineFits(c, lines, i)
    {
      assert c.parse(c.ser(h[i])) == Some(JsonLine(h[i], {}));
      assert h[i].prev == PrevOf(c, h[..i]);
    }
    if Paired(c, h) {
      var records := AcceptLines(c, lines).value.records;
      forall i | 0 <= i < |h|
        ensures records[i].value.record == h[i]
      {
        assert c.parse(lines[i]) == Some(records[i].value);
      }
    }
  }

  // ----- Runs -----

  /** One append: it returned, or power went after `kept` bytes of its line and the journal was opened again. */
  datatype Event = Recorded(fields: Record) | Crashed(fields: Record, kept: nat)

  /** The writer's memory and the file. */
  datatype Writer = Writer(data: seq<byte>, number: nat, prev: string)

  /** What one event makes of the file and the writer, by the contracts of `RecordEntry` and `Open`. */
  function Next(c: Codec, w: Writer, event: Event): Result<Writer> {
    var rec := Stamped(event.fields, w.number, w.prev);
    if ValidateRecord(rec, w.number + 1).Err? then Ok(w)
    else
      var line := Line(c.ser(rec));
      match event
      case Recorded(_) => Ok(Writer(w.data + line, w.number + 1, c.digest(c.ser(rec))))
      case Crashed(_, kept) =>
        var left := w.data + line[..if kept < |line| then kept else |line|];
        var at :- Recover(c, left);
        Ok(Writer(left[..CommittedLength(left)], at.0, at.1))
  }

  /** One event, carried out by the journal's own methods. */
  method Perform(c: Codec, writer: JournalWriter, event: Event) returns (r: Result<JournalWriter>)
    modifies writer, writer.file
    ensures match Next(c, Writer(old(writer.file.data), old(writer.number), old(writer.prevHash)), event)
            case Err(e) => r == Err(e)
            case Ok(w) =>
              r.Ok? && r.value.file == writer.file && w == Writer(writer.file.data, r.value.number, r.value.prevHash)
  {
    hide ValidateRecord, Lines, ParseRecords, CommittedLength;
    var rec := Stamped(event.fields, writer.number, writer.prevHash);
    var line := Line(c.ser(rec));
    if ValidateRecord(rec, writer.number + 1).Err? {
      var _ := writer.RecordEntry(c, event.fields, None);
      return Ok(writer);
    }
    match event {
      case Recorded(_) =>
        var _ := writer.RecordEntry(c, event.fields, None);
        return Ok(writer);
      case Crashed(_, kept) =>
        var _ := writer.RecordEntry(c, event.fields, Some(if kept < |line| then kept else |line|));
        r := Open(c, writer.file);
    }
  }

  function Replay(c: Codec, events: seq<Event>): Result<Writer> {
    if events == [] then Ok(Writer([], 0, ""))
    else
      var w :- Replay(c, events[..|events| - 1]);
      Next(c, w, events[|events| - 1])
  }

  function StampedAt(c: Codec, h: History, event: Event): Record {
    Stamped(event.fields, |h|, PrevOf(c, h))
  }

  /** The record counts as committed exactly when its whole line, newline included, reached the disk. */
  function HistoryAfter(c: Codec, h: History, event: Event): History {
    var rec := StampedAt(c, h, event);
    if ValidateRecord(rec, |h| + 1).Err? then h
    else if event.Crashed? && event.kept < |Line(c.ser(rec))| then h
    else h + [rec]
  }

  function Committed(c: Codec, events: seq<Event>): History {
    if events == [] then [] else HistoryAfter(c, Committed(c, events[..|events| - 1]), events[|events| - 1])
  }

  /** The file, with the line in flight, stays within the size that opening allows. */
  ghost predicate Fits(c: Codec, events: seq<Event>) {
    forall i :: 0 <= i < |events| ==>
                  var h := Committed(c, events[..i]);
                  |Encode(c, h)| + |Line(c.ser(StampedAt(c, h, events[i])))| <= MAX_JOURNAL_BYTES
  }

  lemma StampedGrows(c: Codec, h: History, rec: Record)
    requires WellStamped(c, h) && rec.number == |h| && rec.prev == PrevOf(c, h) && ValidateRecord(rec, |h| + 1).Ok?
    ensures WellStamped(c, h + [rec])
  {
    hide ValidateRecord, PrevOf;
    var after := h + [rec];
    forall i | 0 <= i < |after|
      ensures after[i].number == i && after[i].prev == PrevOf(c, after[..i]) && ValidateRecord(after[i], i + 1).Ok?
    {
      if i < |h| {
        assert after[..i] == h[..i] && after[i] == h[i];
      } else {
        assert after[..i] == h;
      }
    }
  }

  lemma {:induction false} CommittedIsStamped(c: Codec, events: seq<Event>)
    ensures WellStamped(c, Committed(c, events))
  {
    hide ValidateRecord, WellStamped, PrevOf;
    if events == [] {
      NothingStamped(c);
    } else {
      var h, event := Committed(c, events[..|events| - 1]), events[|events| - 1];
      CommittedIsStamped(c, events[..|events| - 1]);
      if HistoryAfter(c, h, event) != h {
        StampedGrows(c, h, StampedAt(c, h, event));
      }
    }
  }

  lemma NothingStamped(c: Codec)
    ensures WellStamped(c, [])
  {
  }

  lemma PairedPrefix(c: Codec, h: History, rec: Record)
    requires Paired(c, h + [rec])
    ensures Paired(c, h)
  {
    var lines := Serialized(c, h + [rec]);
    assert lines[..|h|] == Serialized(c, h);
    PrefixSame(c, lines, |h|);
  }

  lemma RecoverHistory(c: Codec, h: History)
    requires c.Sound() && WellStamped(c, h) && Paired(c, h) && |Encode(c, h)| <= MAX_JOURNAL_BYTES
    ensures Recover(c, Encode(c, h)) == Ok((|h|, PrevOf(c, h)))
  {
    hide ValidateRecord, Lines;
    HistoryReadsBackIff(c, h);
    EncodeReads(c, h);
    WholeCommitted(Encode(c, h));
    if h != [] {
      var records := ParseRecords(c, Encode(c, h)).value.records;
      assert RecordsOf(records)[|h| - 1] == h[|h| - 1];
      assert records[|h| - 1].raw == Serialized(c, h)[|h| - 1];
    }
  }

  /** Opening after a crash: a torn line vanishes, a whole one stays. */
  lemma ReopenAfterCrash(c: Codec, h: History, rec: Record, kept: nat)
    requires c.Sound() && WellStamped(c, h) && Paired(c, h)
    requires kept < |Line(c.ser(rec))| && |Encode(c, h)| + kept <= MAX_JOURNAL_BYTES
    ensures var left := Encode(c, h) + Line(c.ser(rec))[..kept];
            Recover(c, left) == Ok((|h|, PrevOf(c, h))) && left[..CommittedLength(left)] == Encode(c, h)
  {
    hide ValidateRecord, Lines;
    var bytes, tail := Encode(c, h), Line(c.ser(rec))[..kept];
    EncodeReads(c, h);
    assert tail == c.ser(rec)[..kept];
    TornTail(bytes, tail);
    WholeCommitted(bytes);
    assert (bytes + tail)[..|bytes|] == bytes;
    RecoverHistory(c, h);
  }

  /** One event takes the writer of a history to the writer of the next. */
  lemma EventKeeps(c: Codec, h: History, event: Event)
    requires c.Sound() && WellStamped(c, h) && Paired(c, h)
    requires WellStamped(c, HistoryAfter(c, h, event)) && Paired(c, HistoryAfter(c, h, event))
    requires |Encode(c, h)| + |Line(c.ser(StampedAt(c, h, event)))| <= MAX_JOURNAL_BYTES
    ensures var after := HistoryAfter(c, h, event);
            Next(c, Writer(Encode(c, h), |h|, PrevOf(c, h)), event)
            == Ok(Writer(Encode(c, after), |after|, PrevOf(c, after)))
  {
    hide ValidateRecord, Lines, ParseRecords, Paired, WellStamped, CommittedLength, Recover;
    var after, rec := HistoryAfter(c, h, event), StampedAt(c, h, event);
    if ValidateRecord(rec, |h| + 1).Ok? {
      var line := Line(c.ser(rec));
      if event.Crashed? && event.kept < |line| {
        ReopenAfterCrash(c, h, rec, event.kept);
      } else {
        assert after[..|h|] == h;
        assert line[..|line|] == line;
        if event.Crashed? {
          RecoverHistory(c, after);
          EncodeReads(c, after);
          WholeCommitted(Encode(c, after));
        }
      }
    }
  }

  /**
   * Crash refinement. After any run of appends, crashes that keep any part of the line in flight, and
   * reopenings, the writer is where it was after its last committed record and the file holds exactly the
   * committed records, provided every completion was started and the file stays within its size limit.
   */
  lemma {:induction false} RunsKeepCommittedRecords(c: Codec, events: seq<Event>)
    requires c.Sound() && Fits(c, events) && Paired(c, Committed(c, events))
    ensures var h := Committed(c, events);
            && Replay(c, events) == Ok(Writer(Encode(c, h), |h|, PrevOf(c, h)))
            && ParseRecords(c, Encode(c, h)).Ok?
            && RecordsOf(ParseRecords(c, Encode(c, h)).value.records) == h
  {
    hide ValidateRecord, ParseRecords, Paired, WellStamped, Next, Fits, PrevOf;
    CommittedIsStamped(c, events);
    HistoryReadsBackIff(c, Committed(c, events));
    if events == [] {
      NoPrev(c);
    } else {
      var n := |events| - 1;
      var h, event := Committed(c, events[..n]), events[n];
      if Committed(c, events) != h {
        PairedPrefix(c, h, StampedAt(c, h, event));
      }
      FitsPrefix(c, events, n);
      RunsKeepCommittedRecords(c, events[..n]);
      CommittedIsStamped(c, events[..n]);
      EventKeeps(c, h, event);
    }
  }

  lemma NoPrev(c: Codec)
    ensures PrevOf(c, []) == ""
  {
  }

  lemma FitsPrefix(c: Codec, events: seq<Event>, n: nat)
    requires Fits(c, events) && n <= |events|
    ensures Fits(c, events[..n])
    ensures n < |events| ==>
              var h := Committed(c, events[..n]);
              |Encode(c, h)| + |Line(c.ser(StampedAt(c, h, events[n])))| <= MAX_JOURNAL_BYTES
  {
    forall i | 0 <= i < n
      ensures events[..n][..i] == events[..i]
    {
    }
  }

  // ----- A completion that was never started -----

  const SOME_DIGEST: string := "sha256:" + seq(64, _ => '0')

  const LOCKED: Record :=
    Record(0, "", "now", "run", "locked", Some(SOME_DIGEST), Some("/dev/x"), Some(SOME_DIGEST), None, None, None,
           None, None, Some(Json("{}")))

  const COMPLETED: Record :=
    Record(0, "", "now", "run", "action-completed", None, None, Some(SOME_DIGEST), Some("erase"), Some("ok"),
           Some(0), None, None, None)

  lemma LockedIsValid()
    ensures ValidateRecord(LOCKED, 1).Ok? && !Started(LOCKED)
  {
  }

  lemma CompletedIsValid(number: nat, prev: string)
    ensures ValidateRecord(Stamped(COMPLETED, number, prev), 2).Ok? && Completed(Stamped(COMPLETED, number, prev))
  {
  }

  /** Two appends that pass validation, one after the other. */
  lemma TwoAppends(c: Codec, first: Record, second: Record)
    requires first.number == 0 && first.prev == "" && ValidateRecord(first, 1).Ok?
    requires ValidateRecord(Stamped(second, 1, c.digest(c.ser(first))), 2).Ok?
    ensures var events := [Recorded(first), Recorded(second)];
            var h := [first, Stamped(second, 1, c.digest(c.ser(first)))];
            && Committed(c, events) == h
            && Replay(c, events) == Ok(Writer(Encode(c, h), 2, PrevOf(c, h)))
  {
    hide ValidateRecord;
    var one, two := [Recorded(first)], [Recorded(first), Recorded(second)];
    var done := Stamped(second, 1, c.digest(c.ser(first)));
    assert two[..1] == one && one[..0] == [] && [first, done][..1] == [first] && [first][..0] == [];
    assert Stamped(first, 0, "") == first;
    assert Committed(c, one) == [first];
    assert Encode(c, [first]) == Line(c.ser(first));
    assert Replay(c, one) == Ok(Writer(Line(c.ser(first)), 1, c.digest(c.ser(first))));
  }

  /** The writer appends a completion that nothing started without complaint, and the journal no longer opens. */
  lemma UnstartedCompletionIsWritten(c: Codec) returns (h: History)
    requires c.Sound()
    ensures var events := [Recorded(LOCKED), Recorded(COMPLETED)];
            && Committed(c, events) == h && |h| == 2
            && Replay(c, events) == Ok(Writer(Encode(c, h), 2, PrevOf(c, h)))
    ensures WellStamped(c, h) && !Paired(c, h)
    ensures ParseRecords(c, Encode(c, h)).Err? && Recover(c, Encode(c, h)).Err?
  {
    hide ValidateRecord, ParseRecords, Started, Completed, Committed, Replay, Encode, Paired, WellStamped;
    LockedIsValid();
    CompletedIsValid(1, c.digest(c.ser(LOCKED)));
    TwoAppends(c, LOCKED, COMPLETED);
    h := [LOCKED, Stamped(COMPLETED, 1, c.digest(c.ser(LOCKED)))];
    CommittedIsStamped(c, [Recorded(LOCKED), Recorded(COMPLETED)]);
    NeverStarted(c, LOCKED, h[1]);
    HistoryReadsBackIff(c, h);
  }

  lemma NeverStarted(c: Codec, first: Record, done: Record)
    requires c.Sound() && !Started(first) && Completed(done)
    ensures !Paired(c, [first, done])
  {
    hide Started, Completed;
    var lines := Serialized(c, [first, done]);
    assert c.parse(lines[0]) == Some(JsonLine(first, {})) && c.parse(lines[1]) == Some(JsonLine(done, {}));
    assert RecordOf(c, lines[0]) == first && RecordOf(c, lines[1]) == done;
    assert !IsOpen(c, lines, 1, KeyOf(done));
    assert !CompletionPaired(c, lines, 1);
  }

  /**
   * A writer that goes on after a failed write without reopening leaves a journal that reads back exactly when
   * no byte of the failed line had reached the file. (Two texts run together do not parse as one record.)
   */
  lemma RecordAfterFailedWriteIff(c: Codec, h: History, failed: Record, k: nat, rec: Record)
    requires c.Sound() && WellStamped(c, h + [rec]) && Paired(c, h + [rec]) && k <= |Line(c.ser(failed))|
    requires WellStamped(c, h + [failed])
    requires forall n :: 0 < n <= |c.ser(failed)| ==> c.parse(c.ser(failed)[..n] + c.ser(rec)).None?
    ensures ParseRecords(c, Encode(c, h) + Line(c.ser(failed))[..k] + Line(c.ser(rec))).Ok? <==> k == 0
  {
    hide ValidateRecord, Lines, Paired, ParseRecords, LineFits, WellStamped;
    var torn := Line(c.ser(failed))[..k];
    assert (h + [rec])[..|h|] == h;
    if k == 0 {
      HistoryReadsBackIff(c, h + [rec]);
      assert Encode(c, h) + torn + Line(c.ser(rec)) == Encode(c, h + [rec]);
    } else if k == |Line(c.ser(failed))| {
      assert torn == Line(c.ser(failed));
      StampedNumber(c, h, rec);
      RepeatedNumber(c, h, failed, rec);
    } else {
      assert torn == c.ser(failed)[..k];
      GluedLine(c, h, torn, rec);
    }
  }

  lemma StampedNumber(c: Codec, h: History, rec: Record)
    requires WellStamped(c, h + [rec])
    ensures rec.number == |h|
  {
    assert (h + [rec])[|h|] == rec;
  }

  /** The failed line is whole, so the line after it repeats its number. */
  lemma RepeatedNumber(c: Codec, h: History, failed: Record, rec: Record)
    requires c.Sound() && rec.number == |h|
    ensures ParseRecords(c, Encode(c, h) + Line(c.ser(failed)) + Line(c.ser(rec))).Err?
  {
    hide ValidateRecord, Lines, ParseRecords, Encode;
    EncodeReads(c, h);
    var one := Encode(c, h) + Line(c.ser(failed));
    LinesAppend(Encode(c, h), c.ser(failed));
    LinesAppend(one, c.ser(rec));
    var lines := Serialized(c, h) + [c.ser(failed)] + [c.ser(rec)];
    assert lines[|h| + 1] == c.ser(rec);
    BadLastLine(c, one + Line(c.ser(rec)));
  }

  /** The failed line is cut short, so the next one is glued to it. */
  lemma GluedLine(c: Codec, h: History, torn: seq<byte>, rec: Record)
    requires c.Sound() && NEWLINE !in torn && c.parse(torn + c.ser(rec)).None?
    ensures ParseRecords(c, Encode(c, h) + torn + Line(c.ser(rec))).Err?
  {
    hide ValidateRecord, Lines, ParseRecords, Encode;
    var glued := torn + c.ser(rec);
    EncodeReads(c, h);
    assert Encode(c, h) + torn + Line(c.ser(rec)) == Encode(c, h) + Line(glued);
    assert glued[|glued| - 1] == c.ser(rec)[|c.ser(rec)| - 1];
    LinesAppend(Encode(c, h), glued);
    BadLastLine(c, Encode(c, h) + Line(glued));
  }

  lemma BadLastLine(c: Codec, bytes: seq<byte>)
    requires Terminated(bytes) && Lines(bytes) != []
    requires !LineFits(c, Lines(bytes), |Lines(bytes)| - 1)
    ensures ParseRecords(c, bytes).Err?
  {
    WholeCommitted(bytes);
    AcceptsIff(c, Lines(bytes));
  }

  // ----- What an accepted line carries -----

  predicate HexDigit(c: char) { '0' <= c <= '9' || 'a' <= c <= 'f' || 'A' <= c <= 'F' }

  predicate TokenChar(c: char) { 'a' <= c <= 'z' || '0' <= c <= '9' || c == '-' || c == '_' }

  /** The text "sha256:" and 64 hexadecimal digits. */
  predicate DigestText(t: string) {
    |t| == 71 && t[0..7] == ['s', 'h', 'a', '2', '5', '6', ':'] && forall i :: 7 <= i < 71 ==> HexDigit(t[i])
  }

  /** One to 128 lower-case letters, digits, hyphens and underscores. */
  predicate TokenText(t: string) { 1 <= |t| <= 128 && forall i :: 0 <= i < |t| ==> TokenChar(t[i]) }

  predicate PlainText(t: string, least: nat, most: nat) {
    least <= |t| <= most && forall i :: 0 <= i < |t| ==> t[i] != '\0'
  }

  /** Every text that a line carries is of its kind. */
  predicate TextsFit(r: Record) {
    && TokenText(r.phase) && TokenText(r.state)
    && 1 <= |r.time| <= 64 && (forall i :: 0 <= i < |r.time| ==> 0x21 <= r.time[i] as int <= 0x7E)
    && (r.planHash.Some? ==> DigestText(r.planHash.value)) && (r.device.Some? ==> DigestText(r.device.value))
    && (r.action.Some? ==> TokenText(r.action.value))
    && (r.devicePath.Some? ==> PlainText(r.devicePath.value, 1, 4096))
    && (r.message.Some? ==> PlainText(r.message.value, 0, 16_384))
  }

  predicate StatusWord(t: string) {
    || t == "ok" || t == "error" || t == "failed" || t == "partial" || t == "found" || t == "skipped" || t == "fallback"
  }

  /** State by state, which fields a line must have. */
  predicate StateCarries(r: Record) {
    && (r.state == "locked" ==> r.plan.Some? && r.planHash.Some? && r.device.Some? && r.devicePath.Some?)
    && (r.state == "fallback-plan" ==> r.plan.Some? && r.planHash.Some?)
    && (r.plan.Some? ==> r.state == "locked" || r.state == "fallback-plan")
    && (r.state == "action-started" ==> r.planHash.Some? && r.action.Some?)
    && (r.state == "action-completed" ==>
        && r.planHash.Some? && r.action.Some? && r.actionErrors.Some?
        && r.actionStatus.Some? && StatusWord(r.actionStatus.value))
    && (r.state == "outputs-created" || r.state == "outputs-restarted" ==> r.planHash.Some? && r.actionDetails.Some?)
  }

  lemma DigestIff(t: string)
    ensures ValidDigest(t) <==> DigestText(t)
  {
    assert ['s', 'h', 'a', '2', '5', '6', ':'] == "sha256:";
    assert |t| == 71 ==> t[0..7] == t[..7];
  }

  lemma TokenIff(t: string)
    ensures ValidToken(t) <==> TokenText(t)
  {
    assert forall c :: c in "-_" <==> c == '-' || c == '_';
  }

  lemma PlainIff(t: string, least: nat, most: nat)
    ensures PlainText(t, least, most) <==> least <= |t| <= most && '\0' !in t
  {
  }

  lemma StatusIff(status: Option<string>)
    ensures ActionStatusValid(status) <==> status.Some? && StatusWord(status.value)
  {
  }

  /** A record is valid exactly when its place, its texts and the fields of its state are right. */
  lemma ValidRecordIff(r: Record, line: nat)
    requires line >= 1
    ensures ValidateRecord(r, line).Ok? <==>
            (r.state == "locked" <==> line == 1) && TextsFit(r) && StateCarries(r)
  {
    hide ValidDigest, ValidToken, DigestText, TokenText, PlainText, ActionStatusValid, StatusWord;
    TokenIff(r.phase);
    TokenIff(r.state);
    if r.planHash.Some? { DigestIff(r.planHash.value); }
    if r.device.Some? { DigestIff(r.device.value); }
    if r.action.Some? { TokenIff(r.action.value); }
    if r.devicePath.Some? { PlainIff(r.devicePath.value, 1, 4096); }
    if r.message.Some? { PlainIff(r.message.value, 0, 16_384); }
    StatusIff(r.actionStatus);
    TimeIff(r.time);
  }

  lemma TimeIff(t: string)
    ensures (forall i :: 0 <= i < |t| ==> '!' <= t[i] <= '~')
            <==> forall i :: 0 <= i < |t| ==> 0x21 <= t[i] as int <= 0x7E
  {
    assert '!' as int == 0x21 && '~' as int == 0x7E;
  }

  /** Every line of an accepted journal carries what its state calls for. */
  lemma AcceptedLinesCarry(c: Codec, lines: seq<seq<byte>>, i: nat)
    requires AcceptLines(c, lines).Ok? && i < |lines|
    ensures TextsFit(RecordOf(c, lines[i])) && StateCarries(RecordOf(c, lines[i]))
  {
    hide AcceptLines, ValidateRecord, TextsFit, StateCarries, CompletionPaired;
    AcceptsIff(c, lines);
    assert LineFits(c, lines, i);
    ValidRecordIff(RecordOf(c, lines[i]), i + 1);
  }
}
