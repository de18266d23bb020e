/** Building a record from a data line against the active header's field
    names (lrec_parse_stdio_csv_data_line, c/input/lrec_reader_stdio_csv.c
    lines 149-192). Keys are paired with values by position; a count
    mismatch ends the C process and is an error value here. */
module DataLine {
  import opened Wrappers
  import opened FieldSplit

  /** An ordered sequence of (key, value) pairs. */
  type Record = seq<(string, string)>

  datatype ParseError = HeaderDataMismatch

  /** The keys of a record, in order. */
  function Keys(rec: Record): seq<string>
  {
    seq(|rec|, i requires 0 <= i < |rec| => rec[i].0)
  }

  /** The values of a record, in order. */
  function Values(rec: Record): seq<string>
  {
    seq(|rec|, i requires 0 <= i < |rec| => rec[i].1)
  }

  /** Keys and values paired by position. */
  function Zip(keys: seq<string>, values: seq<string>): (r: Record)
    requires |keys| == |values|
    ensures Keys(r) == keys && Values(r) == values
    decreases |keys|
  {
    if |keys| == 0 then []
    else
      var r := [(keys[0], values[0])] + Zip(keys[1..], values[1..]);
      assert Keys(r) == [keys[0]] + keys[1..];
      assert Values(r) == [values[0]] + values[1..];
      r
  }

  /** The scan at lines 157-189: `pending` is what remains of the header's
      key list (the C walks `pe` along it), `acc` the pairs put so far, the
      current value starts at `start` and the scan is at `p`. */
  function ParseScan(pending: seq<string>, line: string, ifs: char, allowRepeat: bool,
                     start: nat, p: nat, acc: Record): Result<Record, ParseError>
    requires start <= p <= |line|
    decreases |line| - p
  {
    if p == |line| then
      if |pending| == 0 then Failure(HeaderDataMismatch)       // no key for the last value
      else if |pending| > 1 then Failure(HeaderDataMismatch)   // keys left without values
      else Success(acc + [(pending[0], line[start..])])
    else if line[p] == ifs then
      if |pending| == 0 then Failure(HeaderDataMismatch)       // more values than keys
      else
        var q := SkipRepeats(line, ifs, allowRepeat, p + 1);
        ParseScan(pending[1..], line, ifs, allowRepeat, q, q, acc + [(pending[0], line[start..p])])
    else ParseScan(pending, line, ifs, allowRepeat, start, p + 1, acc)
  }

  /** The scan succeeds exactly when the pending keys and the remaining
      values have equal counts, and then appends them zipped. */
  lemma {:induction false} ParseScanZips(pending: seq<string>, line: string, ifs: char, allowRepeat: bool,
                                         start: nat, p: nat, acc: Record)
    requires start <= p <= |line|
    ensures var values := DataScan(line, ifs, allowRepeat, start, p);
      ParseScan(pending, line, ifs, allowRepeat, start, p, acc)
        == if |pending| == |values| then Success(acc + Zip(pending, values)) else Failure(HeaderDataMismatch)
    decreases |line| - p
  {
    if p == |line| {
      if |pending| == 1 {
        assert Zip(pending, [line[start..]]) == [(pending[0], line[start..])];
      }
    } else if line[p] == ifs {
      var q := SkipRepeats(line, ifs, allowRepeat, p + 1);
      var tail := DataScan(line, ifs, allowRepeat, q, q);
      var values := [line[start..p]] + tail;
      assert DataScan(line, ifs, allowRepeat, start, p) == values;
      if |pending| > 0 {
        ParseScanZips(pending[1..], line, ifs, allowRepeat, q, q, acc + [(pending[0], line[start..p])]);
        if |pending| == |values| {
          assert values[1..] == tail;
          var pair := (pending[0], line[start..p]);
          assert Zip(pending, values) == [pair] + Zip(pending[1..], tail);
          assert acc + [pair] + Zip(pending[1..], tail) == acc + ([pair] + Zip(pending[1..], tail));
        }
      }
    } else {
      ParseScanZips(pending, line, ifs, allowRepeat, start, p + 1, acc);
    }
  }

  /** Parsing a data line against the header's keys succeeds exactly when the
      line has as many values as the header has names; the record then holds
      the header names in header order, each with the value at its position. */
  function ParseDataLine(keys: seq<string>, line: string, ifs: char, allowRepeat: bool): (r: Result<Record, ParseError>)
    ensures r.Success? <==> |keys| == |SplitDataLine(line, ifs, allowRepeat)|
    ensures r.Success? ==> Keys(r.value) == keys && Values(r.value) == SplitDataLine(line, ifs, allowRepeat)
  {
    ParseScanZips(keys, line, ifs, allowRepeat, 0, 0, []);
    ParseScan(keys, line, ifs, allowRepeat, 0, 0, [])
  }

  /** An empty key list never matches: every data line has at least one value. */
  lemma EmptyHeaderNeverMatches(line: string, ifs: char, allowRepeat: bool)
    ensures ParseDataLine([], line, ifs, allowRepeat) == Failure(HeaderDataMismatch)
  {
    var r := ParseDataLine([], line, ifs, allowRepeat);
    assert r.Failure?;
    assert r.error == HeaderDataMismatch;
  }

  /** Without repeats the record's values join back to the data line, so
      "1,,2" yields a middle "" and a trailing separator a final "". */
  lemma ParsedValuesRejoin(keys: seq<string>, line: string, ifs: char)
    requires ParseDataLine(keys, line, ifs, false).Success?
    ensures Text.Join(Values(ParseDataLine(keys, line, ifs, false).value), ifs) == line
  {
  }

  /** A record is determined by its keys and its values. */
  lemma RecordFromKeysAndValues(rec: Record, keys: seq<string>, values: seq<string>)
    requires Keys(rec) == keys && Values(rec) == values
    ensures |rec| == |keys| == |values|
    ensures forall i :: 0 <= i < |rec| ==> rec[i] == (keys[i], values[i])
  {
    assert forall i :: 0 <= i < |rec| ==> rec[i] == (Keys(rec)[i], Values(rec)[i]);
  }

  /** Without repeats "1,,2" has an empty middle value. */
  lemma EmptyMiddleValue()
    ensures ParseDataLine(["a", "b", "c"], "1,,2", ',', false) == Success([("a", "1"), ("b", ""), ("c", "2")])
  {
    assert Text.Join(["1", "", "2"], ',') == "1,,2";
    SplitDataLineIsJoinInverse("1,,2", ',', ["1", "", "2"]);
    assert SplitDataLine("1,,2", ',', false) == ["1", "", "2"];
    var r := ParseDataLine(["a", "b", "c"], "1,,2", ',', false);
    assert r.Success?;
    RecordFromKeysAndValues(r.value, ["a", "b", "c"], ["1", "", "2"]);
    assert r.value[0] == ("a", "1");
    assert r.value[1] == ("b", "");
    assert r.value[2] == ("c", "2");
    assert r.value == [("a", "1"), ("b", ""), ("c", "2")];
  }

  /** Without repeats a trailing separator yields a final empty value. */
  lemma EmptyTrailingValue()
    ensures ParseDataLine(["a", "b"], "1,", ',', false) == Success([("a", "1"), ("b", "")])
  {
    assert Text.Join(["1", ""], ',') == "1,";
    SplitDataLineIsJoinInverse("1,", ',', ["1", ""]);
    var r := ParseDataLine(["a", "b"], "1,", ',', false);
    assert r.Success?;
    RecordFromKeysAndValues(r.value, ["a", "b"], ["1", ""]);
    assert r.value[0] == ("a", "1");
    assert r.value[1] == ("b", "");
    assert r.value == [("a", "1"), ("b", "")];
  }

  /** With repeats the run in "1,,2" acts as one separator: two values. */
  lemma RepeatedSeparatorSplit()
    ensures SplitDataLine("1,,2", ',', true) == ["1", "2"]
  {
    var line := "1,,2";
    assert SkipRepeats(line, ',', true, 3) == 3;
    assert SkipRepeats(line, ',', true, 2) == 3;
    assert DataScan(line, ',', true, 3, 4) == ["2"];
    assert DataScan(line, ',', true, 3, 3) == ["2"];
    assert line[0..1] == "1";
    assert DataScan(line, ',', true, 0, 1) == ["1", "2"];
    assert DataScan(line, ',', true, 0, 0) == ["1", "2"];
  }

  /** With repeats "1,,2" fills a two-name header. */
  lemma RepeatedSeparatorValues()
    ensures ParseDataLine(["a", "b"], "1,,2", ',', true) == Success([("a", "1"), ("b", "2")])
  {
    RepeatedSeparatorSplit();
    var r := ParseDataLine(["a", "b"], "1,,2", ',', true);
    assert r.Success?;
    RecordFromKeysAndValues(r.value, ["a", "b"], ["1", "2"]);
    assert r.value[0] == ("a", "1");
    assert r.value[1] == ("b", "2");
    assert r.value == [("a", "1"), ("b", "2")];
  }

  /** Without repeats the same line has one value too many for two names. */
  lemma RepeatedSeparatorMismatch()
    ensures ParseDataLine(["a", "b"], "1,,2", ',', false) == Failure(HeaderDataMismatch)
  {
    assert Text.Join(["1", "", "2"], ',') == "1,,2";
    SplitDataLineIsJoinInverse("1,,2", ',', ["1", "", "2"]);
  }
}
