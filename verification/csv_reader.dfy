/** The streaming CSV reader of c/input/lrec_reader_stdio_csv.c: a state
    machine that reads header, blank and data lines and returns one record,
    or end of stream, per call. The line source is the sequence of lines
    still to be read, consumed from the front; end of stream is the empty
    sequence. */
module CsvReader {
  import opened Wrappers
  import opened FieldSplit
  import opened DataLine
  import opened HeaderCache

  /** Which header split the reader applies: the scan as written at lines
      196-218, or its corrected form (see FieldSplit). */
  datatype HeaderRule = AsWritten | Corrected

  /** Reader configuration fixed at allocation: record separator (used only
      by the line source), field separator, and whether runs of field
      separators count as one. */
  datatype Config = Config(irs: char, ifs: char, allowRepeatIfs: bool, headerRule: HeaderRule)

  /** The reader's state (lines 19-29): record count, line count, the
      expect-header flag, the active header (a borrowed reference into the
      cache, here its position) and the cache itself. */
  datatype ReaderState = ReaderState(
    cfg: Config,
    ifnr: nat,
    ilno: nat,
    expectHeaderNext: bool,
    active: Option<HeaderId>,
    keepers: seq<HeaderKeeper>)

  /** What one call of the reader returns. */
  datatype Outcome =
    | Emitted(rec: Record)   // a record (line 103)
    | EndOfStream            // the line source ran dry (lines 63-64, 90-91)
    | Mismatch               // header/data count mismatch: the C exits (lines 162-164, 180-182, 186-188)
    | HeaderOverrun          // the header scan read past the end of the line: undefined in C
    | NoActiveHeader         // a data line with no header: the C dereferences a null keeper (line 157)

  /** The reader's state after a call, the lines not yet read, and the result. */
  datatype Step = Step(state: ReaderState, rest: seq<string>, outcome: Outcome)

  /** The active header, when set, is a keeper in the cache. */
  predicate WellFormed(st: ReaderState)
  {
    st.active.Some? ==> st.active.value < |st.keepers|
  }

  /** The active header is set and has at least one field. */
  predicate HasActiveHeader(st: ReaderState)
  {
    st.active.Some? && st.active.value < |st.keepers| && |st.keepers[st.active.value].fields| > 0
  }

  /** The reader invariant: the cache holds one keeper per schema, none of
      them empty, and whenever no header is expected a header is active. */
  predicate Inv(st: ReaderState)
  {
    && WellFormed(st)
    && Unique(st.keepers)
    && (forall i :: 0 <= i < |st.keepers| ==> |st.keepers[i].fields| > 0)
    && (!st.expectHeaderNext ==> HasActiveHeader(st))
  }

  /** The initial state (lines 130-136). The allocator leaves `ilno` unset;
      it starts at 0 here. */
  function Init(cfg: Config): (st: ReaderState)
    ensures Inv(st) && st.expectHeaderNext && st.active.None? && st.keepers == []
    ensures st.ifnr == 0 && st.cfg == cfg
  {
    ReaderState(cfg, 0, 0, true, None, [])
  }

  /** Start of a new file (lines 109-114): the counts restart and a header is
      expected; the cache and the active header are kept. */
  function Sof(st: ReaderState): (r: ReaderState)
    ensures r.ifnr == 0 && r.ilno == 0 && r.expectHeaderNext
    ensures r.keepers == st.keepers && r.active == st.active && r.cfg == st.cfg
    ensures WellFormed(st) ==> WellFormed(r)
    ensures Inv(st) ==> Inv(r)
  {
    st.(ifnr := 0, ilno := 0, expectHeaderNext := true)
  }

  /** The header fields of a line under the configured rule; None when the
      as-written scan would read past the end of the line. */
  function HeaderFields(cfg: Config, line: string): (r: Option<seq<string>>)
    ensures r.None? <==> cfg.headerRule == AsWritten && !HeaderLineSafe(line, cfg.ifs, cfg.allowRepeatIfs)
    ensures r.Some? ==> (|r.value| == 0 <==> |line| == 0)
  {
    match cfg.headerRule
    case AsWritten =>
      if HeaderLineSafe(line, cfg.ifs, cfg.allowRepeatIfs)
      then Some(SplitHeaderLine(line, cfg.ifs, cfg.allowRepeatIfs))
      else None
    case Corrected => Some(CorrectedSplitHeaderLine(line, cfg.ifs, cfg.allowRepeatIfs))
  }

  /** One line read while a header is expected (lines 65-85): a blank line
      clears the active header and keeps expecting one; any other line is
      resolved through the cache and becomes the active header. */
  function AcceptHeaderLine(st: ReaderState, hline: string): (r: Option<ReaderState>)
    ensures r.None? <==> HeaderFields(st.cfg, hline).None?
    ensures r.Some? ==>
      && WellFormed(r.value)
      && r.value.cfg == st.cfg && r.value.ifnr == st.ifnr && r.value.ilno == st.ilno + 1
      && st.keepers <= r.value.keepers
      && (Unique(st.keepers) ==> Unique(r.value.keepers))
      && (Inv(st) ==> Inv(r.value))
      && (|hline| == 0 ==> r.value.expectHeaderNext && r.value.active.None? && r.value.keepers == st.keepers)
      && (|hline| > 0 ==> !r.value.expectHeaderNext && HasActiveHeader(r.value)
                          && r.value.keepers[r.value.active.value].fields == HeaderFields(st.cfg, hline).value)
  {
    var st1 := st.(ilno := st.ilno + 1);
    match HeaderFields(st.cfg, hline)
    case None => None
    case Some(fields) =>
      if |fields| == 0 then Some(st1.(expectHeaderNext := true, active := None))
      else
        var (keepers', id) := Resolve(st.keepers, hline, fields);
        Some(st1.(expectHeaderNext := false, active := Some(id), keepers := keepers'))
  }

  /** A call's result consumed a data line and counted it. */
  predicate ReadsDataLine(o: Outcome)
  {
    o.Emitted? || o.Mismatch? || o.NoActiveHeader?
  }

  /** The result of parsing a data line, as the reader reports it. */
  function ParseOutcome(p: Result<Record, ParseError>): Outcome
  {
    match p
    case Success(rec) => Emitted(rec)
    case Failure(_) => Mismatch
  }

  /** The result parses one data line against the active header. */
  predicate Parsed(o: Outcome)
  {
    o.Emitted? || o.Mismatch?
  }

  /** What every call guarantees about the step from `st` over `input`, where
      the call reads the first `n` lines:
      - the configuration is kept, and the lines left are a suffix of the
        input (none at end of stream);
      - the cache only grows and keeps one keeper per schema;
      - the record count rises by one exactly when a data line is read;
      - the invariant is preserved, and then no data line meets a null header;
      - every non-blank line read before the last one is a header line: the
        line after it is blank, or is the data line the call returns on; from
        the data state a non-blank first line is that data line;
      - a record or mismatch is the parse of the last line read against the
        active header, which is the header line just before it, or, when
        only one line was read, the header already active;
      - a header overrun is reported on the last line read. */
  predicate StepFacts(st: ReaderState, input: seq<string>, r: Step)
  {
    StepCore(st, input, r) && LinesRead(st, input, r) && ParseFacts(st, input, r)
  }

  /** Configuration, unread lines, cache, counts and invariant. */
  predicate StepCore(st: ReaderState, input: seq<string>, r: Step)
  {
    && r.state.cfg == st.cfg
    && WellFormed(r.state)
    && |r.rest| <= |input| && r.rest == input[|input| - |r.rest|..]
    && (r.outcome.EndOfStream? ==> r.rest == [])
    && st.keepers <= r.state.keepers
    && (Unique(st.keepers) ==> Unique(r.state.keepers))
    && r.state.ifnr == st.ifnr + (if ReadsDataLine(r.outcome) then 1 else 0)
    && r.state.ilno >= st.ilno
    && (Inv(st) ==> Inv(r.state) && !r.outcome.NoActiveHeader?)
  }

  /** Which of the lines read were header, blank and data lines. */
  predicate LinesRead(st: ReaderState, input: seq<string>, r: Step)
  {
    var n := |input| - |r.rest|;
    && (forall k :: 0 <= k < n - 1 && |input[k]| > 0 ==>
          |input[k + 1]| == 0 || (ReadsDataLine(r.outcome) && k + 1 == n - 1))
    && (!st.expectHeaderNext && n >= 1 && |input[0]| > 0 ==> ReadsDataLine(r.outcome) && n == 1)
    && (ReadsDataLine(r.outcome) ==> 1 <= n <= |input| && |input[n - 1]| > 0)
    && (r.outcome.HeaderOverrun? ==> 1 <= n <= |input| && HeaderFields(st.cfg, input[n - 1]).None?)
  }

  /** A record or mismatch is the parse of the last line read against the
      header line just before it, or the header already active. */
  predicate ParseFacts(st: ReaderState, input: seq<string>, r: Step)
  {
    var n := |input| - |r.rest|;
    Parsed(r.outcome) ==>
      && 1 <= n <= |input|
      && !r.state.expectHeaderNext && r.state.active.Some? && r.state.active.value < |r.state.keepers|
      && r.outcome == ParseOutcome(ParseDataLine(r.state.keepers[r.state.active.value].fields,
                                                 input[n - 1], st.cfg.ifs, st.cfg.allowRepeatIfs))
      && (n == 1 ==> r.state.active == st.active && r.state.keepers == st.keepers)
      && (n >= 2 && |input[n - 2]| > 0 ==>
            HeaderFields(st.cfg, input[n - 2]).Some?
            && r.state.keepers[r.state.active.value].fields == HeaderFields(st.cfg, input[n - 2]).value)
  }

  /** The state `st'` after reading the first line, without counting it,
      from `st`; a non-blank first line was a header line that became the
      active header. */
  predicate FirstLineRead(st: ReaderState, st': ReaderState, input: seq<string>)
  {
    && |input| > 0
    && st'.cfg == st.cfg && st'.ifnr == st.ifnr && st'.ilno >= st.ilno
    && st.keepers <= st'.keepers && (Unique(st.keepers) ==> Unique(st'.keepers))
    && (Inv(st) ==> Inv(st'))
    && (|input[0]| > 0 ==>
          && st.expectHeaderNext && !st'.expectHeaderNext
          && st'.active.Some? && st'.active.value < |st'.keepers|
          && HeaderFields(st.cfg, input[0]).Some?
          && st'.keepers[st'.active.value].fields == HeaderFields(st.cfg, input[0]).value)
  }

  lemma CoreFromTail(st: ReaderState, st': ReaderState, input: seq<string>, r: Step)
    requires FirstLineRead(st, st', input) && StepCore(st', input[1..], r)
    ensures StepCore(st, input, r)
  {
    var tail := input[1..];
    assert r.rest == tail[|tail| - |r.rest|..] == input[|input| - |r.rest|..];
  }

  lemma LinesFromTail(st: ReaderState, st': ReaderState, input: seq<string>, r: Step)
    requires FirstLineRead(st, st', input) && StepCore(st', input[1..], r)
    requires LinesRead(st', input[1..], r)
    ensures LinesRead(st, input, r)
  {
    var tail := input[1..];
    var n := |input| - |r.rest|;
    forall k | 0 <= k < n - 1 && |input[k]| > 0
      ensures |input[k + 1]| == 0 || (ReadsDataLine(r.outcome) && k + 1 == n - 1)
    {
      assert input[k + 1] == tail[k];
      if k > 0 {
        assert input[k] == tail[k - 1];
      }
    }
    if n >= 2 {
      assert input[n - 1] == tail[n - 2];
    }
  }

  lemma ParseFromTail(st: ReaderState, st': ReaderState, input: seq<string>, r: Step)
    requires FirstLineRead(st, st', input) && StepCore(st', input[1..], r)
    requires LinesRead(st', input[1..], r) && ParseFacts(st', input[1..], r)
    ensures ParseFacts(st, input, r)
  {
    var tail := input[1..];
    var n := |input| - |r.rest|;
    if Parsed(r.outcome) {
      assert input[n - 1] == tail[n - 2];
      if n >= 3 {
        assert input[n - 2] == tail[n - 3];
      }
    }
  }

  /** The facts of a step taken after the first line carry back to the
      state before it. */
  lemma StepFactsFromTail(st: ReaderState, st': ReaderState, input: seq<string>, r: Step)
    requires FirstLineRead(st, st', input)
    requires StepFacts(st', input[1..], r)
    ensures StepFacts(st, input, r)
  {
    CoreFromTail(st, st', input, r);
    LinesFromTail(st, st', input, r);
    ParseFromTail(st, st', input, r);
  }

  /** Reading while a header is expected (lines 59-87, then the data read). */
  function ReadHeader(st: ReaderState, input: seq<string>): (r: Step)
    requires WellFormed(st) && st.expectHeaderNext
    ensures StepFacts(st, input, r)
    decreases |input|
  {
    if |input| == 0 then Step(st, [], EndOfStream)
    else
      match AcceptHeaderLine(st, input[0])
      case None => Step(st.(ilno := st.ilno + 1), input[1..], HeaderOverrun)
      case Some(st1) =>
        var r := if st1.expectHeaderNext then ReadHeader(st1, input[1..]) else ReadData(st1, input[1..]);
        StepFactsFromTail(st, st1, input, r);
        r
  }

  /** Reading a data line (lines 89-104). A blank line with an active header
      clears it and goes back to expecting one; a blank line without one is
      skipped, as the C loop re-reads; any other line is counted and parsed
      against the active header. The data read is only ever reached with no
      header expected. */
  function ReadData(st: ReaderState, input: seq<string>): (r: Step)
    requires WellFormed(st) && !st.expectHeaderNext
    ensures StepFacts(st, input, r)
    decreases |input|
  {
    if |input| == 0 then Step(st, [], EndOfStream)
    else
      var line := input[0];
      if |line| == 0 then
        var st' := if st.active.Some? then st.(active := None, expectHeaderNext := true) else st;
        var r := if st.active.Some? then ReadHeader(st', input[1..]) else ReadData(st', input[1..]);
        StepFactsFromTail(st, st', input, r);
        r
      else
        var st1 := st.(ifnr := st.ifnr + 1);
        match st.active
        case None => Step(st1, input[1..], NoActiveHeader)
        case Some(id) =>
          Step(st1, input[1..], ParseOutcome(ParseDataLine(st.keepers[id].fields, line, st.cfg.ifs, st.cfg.allowRepeatIfs)))
  }

  /** One call of the reader (lines 54-106). */
  function Process(st: ReaderState, input: seq<string>): (r: Step)
    requires WellFormed(st)
    ensures StepFacts(st, input, r)
    ensures |input| == 0 ==> r == Step(st, [], EndOfStream)
  {
    if st.expectHeaderNext then ReadHeader(st, input) else ReadData(st, input)
  }

  /** A blank line while a header is active clears it and sets
      expect-header, emitting nothing and counting nothing. */
  lemma BlankLineClearsHeader(st: ReaderState, more: seq<string>)
    requires WellFormed(st) && !st.expectHeaderNext && st.active.Some?
    ensures Process(st, [""] + more) == Process(st.(active := None, expectHeaderNext := true), more)
  {
    assert ([""] + more)[1..] == more;
  }

  /** A blank line in the data state with no active header is skipped: the
      C loop goes round and reads the next line as data again. */
  lemma BlankLineSkipped(st: ReaderState, more: seq<string>)
    requires WellFormed(st) && !st.expectHeaderNext && st.active.None?
    ensures Process(st, [""] + more) == Process(st, more)
  {
    assert ([""] + more)[1..] == more;
  }

  /** A non-blank line in the data state with an active header is counted
      and parsed against that header, and the call returns on it. */
  lemma DataLineParsed(st: ReaderState, line: string, more: seq<string>)
    requires WellFormed(st) && !st.expectHeaderNext && st.active.Some? && |line| > 0
    ensures Process(st, [line] + more)
            == Step(st.(ifnr := st.ifnr + 1), more,
                    ParseOutcome(ParseDataLine(st.keepers[st.active.value].fields, line, st.cfg.ifs, st.cfg.allowRepeatIfs)))
  {
    assert ([line] + more)[1..] == more;
  }

  /** In the header state a line the header rule can split is taken as a
      header line (or skipped, when blank), and reading goes on from the
      state it leaves. */
  lemma HeaderLineRead(st: ReaderState, hline: string, more: seq<string>)
    requires WellFormed(st) && st.expectHeaderNext && AcceptHeaderLine(st, hline).Some?
    ensures Process(st, [hline] + more) == Process(AcceptHeaderLine(st, hline).value, more)
  {
    assert ([hline] + more)[1..] == more;
  }

  /** In the header state a line whose as-written split would overrun is
      reported, counted as an input line, and nothing more is read. */
  lemma HeaderLineOverrun(st: ReaderState, hline: string, more: seq<string>)
    requires WellFormed(st) && st.expectHeaderNext && AcceptHeaderLine(st, hline).None?
    ensures Process(st, [hline] + more) == Step(st.(ilno := st.ilno + 1), more, HeaderOverrun)
  {
    assert ([hline] + more)[1..] == more;
  }

  /** A header line whose fields are already cached re-selects the existing
      keeper and leaves the cache unchanged. */
  lemma CachedHeaderReselected(st: ReaderState, hline: string, id: HeaderId)
    requires Inv(st) && |hline| > 0 && HeaderFields(st.cfg, hline).Some?
    requires id < |st.keepers| && st.keepers[id].fields == HeaderFields(st.cfg, hline).value
    ensures AcceptHeaderLine(st, hline)
            == Some(st.(ilno := st.ilno + 1, expectHeaderNext := false, active := Some(id)))
  {
    ResolveReselects(st.keepers, hline, HeaderFields(st.cfg, hline).value, id);
  }

  /** A header line with a new schema appends exactly one keeper, holding that
      line, and makes it active. */
  lemma NewHeaderAppended(st: ReaderState, hline: string)
    requires |hline| > 0 && HeaderFields(st.cfg, hline).Some?
    requires !Cached(st.keepers, HeaderFields(st.cfg, hline).value)
    ensures var fields := HeaderFields(st.cfg, hline).value;
      AcceptHeaderLine(st, hline)
        == Some(st.(ilno := st.ilno + 1, expectHeaderNext := false, active := Some(|st.keepers|),
                    keepers := st.keepers + [HeaderKeeper(hline, fields)]))
  {
  }

  /** A line of non-empty, separator-free fields joined by ',' splits back
      into those fields as a header and as data. */
  lemma PlainLine(line: string, fields: seq<string>)
    requires |fields| >= 1
    requires forall i :: 0 <= i < |fields| ==> |fields[i]| > 0 && ',' !in fields[i]
    requires Text.Join(fields, ',') == line
    requires forall k :: 0 <= k < |line| - 1 ==> line[k] != ',' || line[k + 1] != ','
    requires line[|line| - 1] != ','
    ensures HeaderLineSafe(line, ',', false)
    ensures SplitHeaderLine(line, ',', false) == fields
    ensures SplitDataLine(line, ',', false) == fields
  {
    SplitDataLineIsJoinInverse(line, ',', fields);
    assert Text.TrailingRun(line, ',') == 0;
    CorrectedSplitAgrees(line, ',', false);
  }

  /** A data line whose values are known parses to the keys paired with them. */
  lemma ParsedPairs(keys: seq<string>, line: string, values: seq<string>)
    requires SplitDataLine(line, ',', false) == values && |keys| == |values|
    ensures ParseDataLine(keys, line, ',', false).Success?
    ensures var rec := ParseDataLine(keys, line, ',', false).value;
      |rec| == |keys| && forall i :: 0 <= i < |rec| ==> rec[i] == (keys[i], values[i])
  {
    var rec := ParseDataLine(keys, line, ',', false).value;
    RecordFromKeysAndValues(rec, keys, values);
  }

  const ScenarioConfig := Config('\n', ',', false, AsWritten)
  const ScenarioInput := ["a,b,c", "1,2,3", "4,5,6", "", "d,e,f,g", "3,4,5,6"]
  const FirstKeeper := HeaderKeeper("a,b,c", ["a", "b", "c"])
  const SecondKeeper := HeaderKeeper("d,e,f,g", ["d", "e", "f", "g"])
  /** The state after the first header line. */
  const AfterFirstHeader := ReaderState(ScenarioConfig, 0, 1, false, Some(0), [FirstKeeper])
  /** The state after the blank line and the second header line. */
  const AfterSecondHeader := ReaderState(ScenarioConfig, 2, 2, false, Some(1), [FirstKeeper, SecondKeeper])

  /** The first header line of the scenarios gets the first keeper. */
  lemma FirstHeaderAccepted()
    ensures AcceptHeaderLine(Init(ScenarioConfig), "a,b,c") == Some(AfterFirstHeader)
  {
    PlainLine("a,b,c", ["a", "b", "c"]);
    assert HeaderFields(ScenarioConfig, "a,b,c") == Some(["a", "b", "c"]);
    var st0 := Init(ScenarioConfig);
    assert st0 == ReaderState(ScenarioConfig, 0, 0, true, None, []);
    NewHeaderAppended(st0, "a,b,c");
    assert [] + [HeaderKeeper("a,b,c", ["a", "b", "c"])] == [FirstKeeper];
    assert st0.(ilno := st0.ilno + 1, expectHeaderNext := false, active := Some(|st0.keepers|),
                keepers := st0.keepers + [HeaderKeeper("a,b,c", ["a", "b", "c"])]) == AfterFirstHeader;
  }

  lemma ScenarioFirstRecord()
    ensures Process(Init(ScenarioConfig), ScenarioInput)
            == Step(AfterFirstHeader.(ifnr := 1), ScenarioInput[2..], Emitted([("a", "1"), ("b", "2"), ("c", "3")]))
  {
    FirstHeaderAccepted();
    PlainLine("1,2,3", ["1", "2", "3"]);
    ParsedPairs(["a", "b", "c"], "1,2,3", ["1", "2", "3"]);
    var rec := ParseDataLine(["a", "b", "c"], "1,2,3", ',', false).value;
    assert rec == [("a", "1"), ("b", "2"), ("c", "3")];
    assert ScenarioInput[1..][1..] == ScenarioInput[2..];
  }

  lemma ScenarioSecondRecord()
    ensures Process(AfterFirstHeader.(ifnr := 1), ScenarioInput[2..])
            == Step(AfterFirstHeader.(ifnr := 2), ScenarioInput[3..], Emitted([("a", "4"), ("b", "5"), ("c", "6")]))
  {
    PlainLine("4,5,6", ["4", "5", "6"]);
    ParsedPairs(["a", "b", "c"], "4,5,6", ["4", "5", "6"]);
    var rec := ParseDataLine(["a", "b", "c"], "4,5,6", ',', false).value;
    assert rec == [("a", "4"), ("b", "5"), ("c", "6")];
    assert ScenarioInput[2..][1..] == ScenarioInput[3..];
  }

  /** The state once the blank line has cleared the first header. */
  const Cleared := ReaderState(ScenarioConfig, 2, 1, true, None, [FirstKeeper])

  /** The blank line clears the first header. */
  lemma ScenarioBlankLine()
    ensures Process(AfterFirstHeader.(ifnr := 2), ScenarioInput[3..]) == ReadHeader(Cleared, ["d,e,f,g", "3,4,5,6"])
  {
    assert ScenarioInput[3..] == [""] + ["d,e,f,g", "3,4,5,6"];
    BlankLineClearsHeader(AfterFirstHeader.(ifnr := 2), ["d,e,f,g", "3,4,5,6"]);
    assert AfterFirstHeader.(ifnr := 2).(active := None, expectHeaderNext := true) == Cleared;
  }

  /** The second header has a new schema and gets a second keeper. */
  lemma ScenarioSecondHeader()
    ensures AcceptHeaderLine(Cleared, "d,e,f,g") == Some(AfterSecondHeader)
  {
    PlainLine("d,e,f,g", ["d", "e", "f", "g"]);
    assert HeaderFields(ScenarioConfig, "d,e,f,g") == Some(["d", "e", "f", "g"]);
    assert FirstKeeper.fields != ["d", "e", "f", "g"];
    NewHeaderAppended(Cleared, "d,e,f,g");
    assert [FirstKeeper] + [HeaderKeeper("d,e,f,g", ["d", "e", "f", "g"])] == [FirstKeeper, SecondKeeper];
    assert Cleared.(ilno := 2, expectHeaderNext := false, active := Some(1),
                    keepers := [FirstKeeper, SecondKeeper]) == AfterSecondHeader;
  }

  /** The data line after the second header parses against it. */
  lemma ScenarioThirdRecord()
    ensures ReadData(AfterSecondHeader, ["3,4,5,6"])
            == Step(AfterSecondHeader.(ifnr := 3), [], Emitted([("d", "3"), ("e", "4"), ("f", "5"), ("g", "6")]))
  {
    PlainLine("3,4,5,6", ["3", "4", "5", "6"]);
    ParsedPairs(["d", "e", "f", "g"], "3,4,5,6", ["3", "4", "5", "6"]);
    var rec := ParseDataLine(["d", "e", "f", "g"], "3,4,5,6", ',', false).value;
    assert rec == [("d", "3"), ("e", "4"), ("f", "5"), ("g", "6")];
  }

  lemma ScenarioSchemaChange()
    ensures Process(AfterFirstHeader.(ifnr := 2), ScenarioInput[3..])
            == Step(AfterSecondHeader.(ifnr := 3), [], Emitted([("d", "3"), ("e", "4"), ("f", "5"), ("g", "6")]))
  {
    ScenarioBlankLine();
    ScenarioSecondHeader();
    assert ["d,e,f,g", "3,4,5,6"][1..] == ["3,4,5,6"];
    assert ReadHeader(Cleared, ["d,e,f,g", "3,4,5,6"]) == ReadData(AfterSecondHeader, ["3,4,5,6"]);
    ScenarioThirdRecord();
  }

  /** The three-record stream with a schema change: records a=1,b=2,c=3 and
      a=4,b=5,c=6, then, after the blank line and the new header, d=3,e=4,
      f=5,g=6, then end of stream; the record count rises exactly three
      times and the second schema gets a second keeper. */
  lemma SchemaChangeScenario()
    ensures var s1 := Process(Init(ScenarioConfig), ScenarioInput);
      var s2 := Process(s1.state, s1.rest);
      var s3 := Process(s2.state, s2.rest);
      var s4 := Process(s3.state, s3.rest);
      && s1.outcome == Emitted([("a", "1"), ("b", "2"), ("c", "3")])
      && s2.outcome == Emitted([("a", "4"), ("b", "5"), ("c", "6")])
      && s3.outcome == Emitted([("d", "3"), ("e", "4"), ("f", "5"), ("g", "6")])
      && s4.outcome == EndOfStream
      && s1.state.ifnr == 1 && s2.state.ifnr == 2 && s3.state.ifnr == 3 && s4.state.ifnr == 3
      && |s4.state.keepers| == 2
  {
    ScenarioFirstRecord();
    ScenarioSecondRecord();
    ScenarioSchemaChange();
  }

  /** The first file of the two-file cases. */
  const FileOne := ["a,b,c", "1,2,3", "4,5,6"]
  /** The state at the end of the first file. */
  const EndOfFileOne := ReaderState(ScenarioConfig, 2, 1, false, Some(0), [FirstKeeper])
  /** The state at the start of the second file: counts reset, header expected,
      the first keeper still cached and still the active one. */
  const StartOfFileTwo := ReaderState(ScenarioConfig, 0, 0, true, Some(0), [FirstKeeper])

  /** The first data line of the first file. */
  lemma FileOneFirstDataLine()
    ensures Process(AfterFirstHeader, ["1,2,3", "4,5,6"])
            == Step(AfterFirstHeader.(ifnr := 1), ["4,5,6"], Emitted([("a", "1"), ("b", "2"), ("c", "3")]))
  {
    PlainLine("1,2,3", ["1", "2", "3"]);
    ParsedPairs(["a", "b", "c"], "1,2,3", ["1", "2", "3"]);
    var rec := ParseDataLine(["a", "b", "c"], "1,2,3", ',', false).value;
    assert rec == [("a", "1"), ("b", "2"), ("c", "3")];
  }

  /** The header and first data line of the first file. */
  lemma FileOneFirstRecord()
    ensures Process(Init(ScenarioConfig), FileOne)
            == Step(AfterFirstHeader.(ifnr := 1), ["4,5,6"], Emitted([("a", "1"), ("b", "2"), ("c", "3")]))
  {
    FirstHeaderAccepted();
    assert FileOne == ["a,b,c"] + ["1,2,3", "4,5,6"];
    HeaderLineRead(Init(ScenarioConfig), "a,b,c", ["1,2,3", "4,5,6"]);
    FileOneFirstDataLine();
  }

  /** The second data line of the first file. */
  lemma FileOneSecondRecord()
    ensures Process(AfterFirstHeader.(ifnr := 1), ["4,5,6"])
            == Step(EndOfFileOne, [], Emitted([("a", "4"), ("b", "5"), ("c", "6")]))
  {
    assert ["4,5,6"] == ["4,5,6"] + [];
    DataLineParsed(AfterFirstHeader.(ifnr := 1), "4,5,6", []);
    PlainLine("4,5,6", ["4", "5", "6"]);
    ParsedPairs(["a", "b", "c"], "4,5,6", ["4", "5", "6"]);
    assert ParseDataLine(["a", "b", "c"], "4,5,6", ',', false).value == [("a", "4"), ("b", "5"), ("c", "6")];
    assert AfterFirstHeader.(ifnr := 1).(ifnr := 2) == EndOfFileOne;
  }

  /** The first file gives a=1,b=2,c=3, then a=4,b=5,c=6, then end of stream. */
  lemma FileOneRecords()
    ensures var s1 := Process(Init(ScenarioConfig), FileOne);
      var s2 := Process(s1.state, s1.rest);
      var s3 := Process(s2.state, s2.rest);
      && s1.outcome == Emitted([("a", "1"), ("b", "2"), ("c", "3")])
      && s2.outcome == Emitted([("a", "4"), ("b", "5"), ("c", "6")])
      && s3 == Step(EndOfFileOne, [], EndOfStream)
  {
    FileOneFirstRecord();
    FileOneSecondRecord();
  }

  /** Start of the second file keeps the cache and the active keeper. */
  lemma SecondFileStarts()
    ensures Sof(EndOfFileOne) == StartOfFileTwo && Inv(StartOfFileTwo)
  {
  }

  /** The state after the repeated header of the second file (case a). */
  const SameSchemaHeader := ReaderState(ScenarioConfig, 0, 1, false, Some(0), [FirstKeeper])
  /** The state after the new header of the second file (case b). */
  const NewSchemaHeader := ReaderState(ScenarioConfig, 0, 1, false, Some(1), [FirstKeeper, SecondKeeper])

  lemma SameSchemaHeaderAccepted()
    ensures AcceptHeaderLine(StartOfFileTwo, "a,b,c") == Some(SameSchemaHeader)
  {
    PlainLine("a,b,c", ["a", "b", "c"]);
    assert HeaderFields(ScenarioConfig, "a,b,c") == Some(["a", "b", "c"]);
    CachedHeaderReselected(StartOfFileTwo, "a,b,c", 0);
  }

  lemma SameSchemaRecord()
    ensures Process(SameSchemaHeader, ["7,8,9"])
            == Step(SameSchemaHeader.(ifnr := 1), [], Emitted([("a", "7"), ("b", "8"), ("c", "9")]))
  {
    assert ["7,8,9"] == ["7,8,9"] + [];
    DataLineParsed(SameSchemaHeader, "7,8,9", []);
    PlainLine("7,8,9", ["7", "8", "9"]);
    ParsedPairs(["a", "b", "c"], "7,8,9", ["7", "8", "9"]);
    assert ParseDataLine(["a", "b", "c"], "7,8,9", ',', false).value == [("a", "7"), ("b", "8"), ("c", "9")];
  }

  /** Case (a): the second file repeats the schema. Its header re-selects the
      first keeper, no keeper is added, and 7,8,9 becomes a=7,b=8,c=9 as the
      first record of the new file. */
  lemma SecondFileSameSchema()
    ensures var s1 := Process(Sof(EndOfFileOne), ["a,b,c", "7,8,9"]);
      var s2 := Process(s1.state, s1.rest);
      && s1.outcome == Emitted([("a", "7"), ("b", "8"), ("c", "9")])
      && s1.state.ifnr == 1 && s1.state.keepers == [FirstKeeper] && s1.state.active == Some(0)
      && s2.outcome == EndOfStream
  {
    SecondFileStarts();
    SameSchemaHeaderAccepted();
    assert ["a,b,c", "7,8,9"] == ["a,b,c"] + ["7,8,9"];
    HeaderLineRead(StartOfFileTwo, "a,b,c", ["7,8,9"]);
    SameSchemaRecord();
  }

  lemma NewSchemaHeaderAccepted()
    ensures AcceptHeaderLine(StartOfFileTwo, "d,e,f,g") == Some(NewSchemaHeader)
  {
    PlainLine("d,e,f,g", ["d", "e", "f", "g"]);
    assert HeaderFields(ScenarioConfig, "d,e,f,g") == Some(["d", "e", "f", "g"]);
    assert FirstKeeper.fields != ["d", "e", "f", "g"];
    NewHeaderAppended(StartOfFileTwo, "d,e,f,g");
    assert [FirstKeeper] + [HeaderKeeper("d,e,f,g", ["d", "e", "f", "g"])] == [FirstKeeper, SecondKeeper];
  }

  lemma NewSchemaRecord()
    ensures Process(NewSchemaHeader, ["3,4,5,6"])
            == Step(NewSchemaHeader.(ifnr := 1), [], Emitted([("d", "3"), ("e", "4"), ("f", "5"), ("g", "6")]))
  {
    PlainLine("3,4,5,6", ["3", "4", "5", "6"]);
    ParsedPairs(["d", "e", "f", "g"], "3,4,5,6", ["3", "4", "5", "6"]);
    var rec := ParseDataLine(["d", "e", "f", "g"], "3,4,5,6", ',', false).value;
    assert rec == [("d", "3"), ("e", "4"), ("f", "5"), ("g", "6")];
  }

  /** Case (b): the second file has a new schema. Its header gets a second
      keeper, which becomes active, and 3,4,5,6 becomes d=3,e=4,f=5,g=6. */
  lemma SecondFileNewSchema()
    ensures var s1 := Process(Sof(EndOfFileOne), ["d,e,f,g", "3,4,5,6"]);
      var s2 := Process(s1.state, s1.rest);
      && s1.outcome == Emitted([("d", "3"), ("e", "4"), ("f", "5"), ("g", "6")])
      && s1.state.ifnr == 1 && s1.state.keepers == [FirstKeeper, SecondKeeper] && s1.state.active == Some(1)
      && s2.outcome == EndOfStream
  {
    SecondFileStarts();
    NewSchemaHeaderAccepted();
    assert ["d,e,f,g", "3,4,5,6"] == ["d,e,f,g"] + ["3,4,5,6"];
    HeaderLineRead(StartOfFileTwo, "d,e,f,g", ["3,4,5,6"]);
    NewSchemaRecord();
  }
}
