/** Splitting a CSV line into fields on the field separator `ifs`.

    Two scans live in c/input/lrec_reader_stdio_csv.c and they differ:
    the data-line scan inside lrec_parse_stdio_csv_data_line advances once
    past each separator, while split_csv_header_line advances past it and
    then again with the for-loop's own increment, so the character right
    after a consumed separator (or separator run) is never tested. Both are
    modelled as written, over an immutable line with index slicing in place
    of the NUL bytes the C writes into the buffer. */
module FieldSplit {
  import opened Wrappers
  import opened Text

  /** Where the next field starts after the separator at `q - 1`: `q` itself,
      or, when repeated separators are allowed, the first position at or after
      `q` that is not `ifs`. */
  function SkipRepeats(line: string, ifs: char, allowRepeat: bool, q: nat): (r: nat)
    requires q <= |line|
    ensures q <= r <= |line|
    ensures !allowRepeat ==> r == q
    ensures forall k :: q <= k < r ==> line[k] == ifs
    ensures allowRepeat && r < |line| ==> line[r] != ifs
    decreases |line| - q
  {
    if allowRepeat && q < |line| && line[q] == ifs then SkipRepeats(line, ifs, allowRepeat, q + 1)
    else q
  }

  /** Skipping a run lands exactly where dropping the run from the suffix does. */
  lemma {:induction false} SkipRepeatsDropsRun(line: string, ifs: char, q: nat)
    requires q <= |line|
    ensures line[SkipRepeats(line, ifs, true, q)..] == DropRun(line[q..], ifs)
    decreases |line| - q
  {
    if q < |line| && line[q] == ifs {
      assert line[q..][1..] == line[q + 1..];
      SkipRepeatsDropsRun(line, ifs, q + 1);
    }
  }

  // ---------------------------------------------------------------------
  // Data lines

  /** Values of a data line: the current value starts at `start`, the scan is
      at `p`. A separator closes the value, and the next one starts after it
      (and after any further separators when repeats are allowed); the end of
      the line closes the last value. */
  function DataScan(line: string, ifs: char, allowRepeat: bool, start: nat, p: nat): (r: seq<string>)
    requires start <= p <= |line|
    ensures |r| >= 1
    decreases |line| - p
  {
    if p == |line| then [line[start..]]
    else if line[p] == ifs then
      var q := SkipRepeats(line, ifs, allowRepeat, p + 1);
      [line[start..p]] + DataScan(line, ifs, allowRepeat, q, q)
    else DataScan(line, ifs, allowRepeat, start, p + 1)
  }

  lemma {:induction false} DataScanNoSeparator(line: string, ifs: char, allowRepeat: bool, start: nat, p: nat)
    requires start <= p <= |line|
    requires ifs !in line[start..p]
    ensures forall i :: 0 <= i < |DataScan(line, ifs, allowRepeat, start, p)| ==>
              ifs !in DataScan(line, ifs, allowRepeat, start, p)[i]
    decreases |line| - p
  {
    if p == |line| {
    } else if line[p] == ifs {
      var q := SkipRepeats(line, ifs, allowRepeat, p + 1);
      DataScanNoSeparator(line, ifs, allowRepeat, q, q);
    } else {
      assert line[start..p + 1] == line[start..p] + [line[p]];
      DataScanNoSeparator(line, ifs, allowRepeat, start, p + 1);
    }
  }

  /** Joining a field in front of a non-empty list puts one separator between. */
  lemma JoinCons(x: string, tail: seq<string>, sep: char)
    requires |tail| >= 1
    ensures Join([x] + tail, sep) == x + [sep] + Join(tail, sep)
  {
    assert ([x] + tail)[1..] == tail;
  }

  lemma {:induction false} DataScanJoinPlain(line: string, ifs: char, start: nat, p: nat)
    requires start <= p <= |line|
    ensures Join(DataScan(line, ifs, false, start, p), ifs) == line[start..]
    decreases |line| - p
  {
    if p == |line| {
    } else if line[p] == ifs {
      DataScanJoinPlain(line, ifs, p + 1, p + 1);
      JoinCons(line[start..p], DataScan(line, ifs, false, p + 1, p + 1), ifs);
      assert line[start..] == line[start..p] + [ifs] + line[p + 1..];
    } else {
      DataScanJoinPlain(line, ifs, start, p + 1);
    }
  }

  /** One separator step of the collapsed join: the run from `p` is consumed. */
  lemma CollapsedJoinAtSeparator(line: string, ifs: char, start: nat, p: nat)
    requires start <= p < |line| && line[p] == ifs
    requires var q := SkipRepeats(line, ifs, true, p + 1);
      Join(DataScan(line, ifs, true, q, q), ifs) == Collapse(line[q..], ifs)
    ensures Join(DataScan(line, ifs, true, start, p), ifs) == line[start..p] + Collapse(line[p..], ifs)
  {
    var q := SkipRepeats(line, ifs, true, p + 1);
    var tail := DataScan(line, ifs, true, q, q);
    var rest := line[p..];
    assert Collapse(rest, ifs) == [ifs] + Join(tail, ifs) by {
      assert rest[0] == ifs && rest[1..] == line[p + 1..];
      SkipRepeatsDropsRun(line, ifs, p + 1);
    }
    JoinPrepend(DataScan(line, ifs, true, start, p), line[start..p], tail, Collapse(rest, ifs), ifs);
  }

  /** Joining `[x] + tail` is `x` followed by a separator and the join of `tail`. */
  lemma JoinPrepend(fields: seq<string>, x: string, tail: seq<string>, joinedTail: string, sep: char)
    requires fields == [x] + tail && |tail| >= 1
    requires joinedTail == [sep] + Join(tail, sep)
    ensures Join(fields, sep) == x + joinedTail
  {
    JoinCons(x, tail, sep);
  }

  /** One ordinary-character step of the collapsed join. */
  lemma CollapsedJoinAtOther(line: string, ifs: char, start: nat, p: nat)
    requires start <= p < |line| && line[p] != ifs
    requires Join(DataScan(line, ifs, true, start, p + 1), ifs) == line[start..p + 1] + Collapse(line[p + 1..], ifs)
    ensures Join(DataScan(line, ifs, true, start, p), ifs) == line[start..p] + Collapse(line[p..], ifs)
  {
    assert line[start..p + 1] == line[start..p] + [line[p]];
    assert line[p..][1..] == line[p + 1..];
  }

  lemma {:induction false} DataScanJoinCollapsed(line: string, ifs: char, start: nat, p: nat)
    requires start <= p <= |line|
    ensures Join(DataScan(line, ifs, true, start, p), ifs) == line[start..p] + Collapse(line[p..], ifs)
    decreases |line| - p
  {
    if p == |line| {
      assert line[p..] == [];
      assert line[start..] == line[start..p];
    } else if line[p] == ifs {
      var q := SkipRepeats(line, ifs, true, p + 1);
      DataScanJoinCollapsed(line, ifs, q, q);
      assert line[q..q] == [];
      CollapsedJoinAtSeparator(line, ifs, start, p);
    } else {
      DataScanJoinCollapsed(line, ifs, start, p + 1);
      CollapsedJoinAtOther(line, ifs, start, p);
    }
  }

  /** The values of a data line (lines 158-179 and 184-185). Without repeats
      they join back to the line; with repeats each separator run counts as
      one separator; no value contains the separator. */
  function SplitDataLine(line: string, ifs: char, allowRepeat: bool): (r: seq<string>)
    ensures |r| >= 1
    ensures forall i :: 0 <= i < |r| ==> ifs !in r[i]
    ensures !allowRepeat ==> Join(r, ifs) == line
    ensures allowRepeat ==> Join(r, ifs) == Collapse(line, ifs)
  {
    DataScanNoSeparator(line, ifs, allowRepeat, 0, 0);
    DataScanJoinCollapsed(line, ifs, 0, 0);
    DataScanJoinPlain(line, ifs, 0, 0);
    assert line[0..0] == [] && line[0..] == line;
    DataScan(line, ifs, allowRepeat, 0, 0)
  }

  /** Without repeats, splitting is the inverse of joining: it is the only
      list of separator-free fields that joins to the line. */
  lemma SplitDataLineIsJoinInverse(line: string, ifs: char, fields: seq<string>)
    requires |fields| >= 1
    requires forall i :: 0 <= i < |fields| ==> ifs !in fields[i]
    requires Join(fields, ifs) == line
    ensures SplitDataLine(line, ifs, false) == fields
  {
    JoinInjective(SplitDataLine(line, ifs, false), fields, ifs);
  }

  /** With repeats, each separator run acts as a single separator: the result
      is the repeat-free split of the collapsed line. */
  lemma RepeatedSeparatorsActAsOne(line: string, ifs: char)
    ensures SplitDataLine(line, ifs, true) == SplitDataLine(Collapse(line, ifs), ifs, false)
  {
    SplitDataLineIsJoinInverse(Collapse(line, ifs), ifs, SplitDataLine(line, ifs, true));
  }

  // ---------------------------------------------------------------------
  // Header lines

  /** Fields of a header line as the scan at lines 201-215 produces them, with
      the current field starting at `start` and the next position tested at
      `p`. After a separator is consumed (and any run, when repeats are
      allowed) the for-loop's increment moves past the next character without
      testing it; when that increment leaves the terminating NUL behind the C
      reads past the end of the string, and the result is None. */
  function HeaderScan(line: string, ifs: char, allowRepeat: bool, start: nat, p: nat): (r: Option<seq<string>>)
    requires start <= p <= |line|
    ensures r.Some? ==> |r.value| >= 1
    decreases |line| - p
  {
    if p == |line| then Some([line[start..]])
    else if line[p] != ifs then HeaderScan(line, ifs, allowRepeat, start, p + 1)
    else
      var q := SkipRepeats(line, ifs, allowRepeat, p + 1);
      if q == |line| then None
      else
        match HeaderScan(line, ifs, allowRepeat, q, q + 1)
        case None => None
        case Some(rest) => Some([line[start..p]] + rest)
  }

  /** The header scan stays inside the string exactly when the line does not
      end in a consumed separator: with repeats, when it does not end in a
      separator at all; without, when its trailing separator run has even
      length (every other separator of a run is skipped untested). */
  predicate HeaderLineSafe(line: string, ifs: char, allowRepeat: bool)
  {
    if allowRepeat then TrailingRun(line, ifs) == 0 else TrailingRun(line, ifs) % 2 == 0
  }

  /** A character other than the separator, tested at the front, leaves
      the safety of the remaining text unchanged. */
  lemma SafeAfterOther(s: string, ifs: char, allowRepeat: bool)
    requires |s| > 0 && s[0] != ifs
    ensures HeaderLineSafe(s, ifs, allowRepeat) <==> HeaderLineSafe(s[1..], ifs, allowRepeat)
  {
    TrailingRunAfter(s, ifs, 0);
  }

  /** A separator run consumed with repeats, followed by the untested
      character at `k`, leaves the safety of the remaining text unchanged. */
  lemma SafeAfterRun(s: string, ifs: char, k: nat)
    requires k < |s| && s[k] != ifs
    ensures HeaderLineSafe(s, ifs, true) <==> HeaderLineSafe(s[k + 1..], ifs, true)
  {
    TrailingRunAfter(s, ifs, k);
  }

  /** Without repeats, a consumed separator and the untested character after
      it leave the parity of the trailing run unchanged. */
  lemma SafeAfterPair(s: string, ifs: char)
    requires |s| >= 2 && s[0] == ifs
    ensures HeaderLineSafe(s, ifs, false) <==> HeaderLineSafe(s[2..], ifs, false)
  {
    TrailingRunDropFirst(s, ifs);
    TrailingRunDropFirst(s[1..], ifs);
    assert s[1..][1..] == s[2..];
  }

  /** Text that is nothing but separators is unsafe. */
  lemma AllSeparatorsUnsafe(s: string, ifs: char, allowRepeat: bool)
    requires |s| >= 1
    requires forall k :: 0 <= k < |s| ==> s[k] == ifs
    requires !allowRepeat ==> |s| == 1
    ensures !HeaderLineSafe(s, ifs, allowRepeat)
  {
    TrailingRunUnique(s, ifs, |s|);
  }

  /** Defined-ness across an ordinary character at `p`. */
  lemma DefinedAtOther(line: string, ifs: char, allowRepeat: bool, start: nat, p: nat)
    requires start <= p < |line| && line[p] != ifs
    requires HeaderScan(line, ifs, allowRepeat, start, p + 1).Some? <==> HeaderLineSafe(line[p + 1..], ifs, allowRepeat)
    ensures HeaderScan(line, ifs, allowRepeat, start, p).Some? <==> HeaderLineSafe(line[p..], ifs, allowRepeat)
  {
    SafeAfterOther(line[p..], ifs, allowRepeat);
    assert line[p..][1..] == line[p + 1..];
  }

  /** The scan at a separator is defined exactly when the increment stays in
      the string and the rest of the scan is defined. */
  lemma HeaderScanAtSeparator(line: string, ifs: char, allowRepeat: bool, start: nat, p: nat)
    requires start <= p < |line| && line[p] == ifs
    ensures var q := SkipRepeats(line, ifs, allowRepeat, p + 1);
      HeaderScan(line, ifs, allowRepeat, start, p).Some? <==> (q < |line| && HeaderScan(line, ifs, allowRepeat, q, q + 1).Some?)
  {
  }

  /** Safety across a separator consumed at `p`, the run after it, and the
      untested character at `q`. */
  lemma SafeAtSeparator(line: string, ifs: char, allowRepeat: bool, p: nat, q: nat)
    requires p < |line| && line[p] == ifs && q == SkipRepeats(line, ifs, allowRepeat, p + 1)
    ensures HeaderLineSafe(line[p..], ifs, allowRepeat) <==> (q < |line| && HeaderLineSafe(line[q + 1..], ifs, allowRepeat))
  {
    if q == |line| {
      AllSeparatorsUnsafe(line[p..], ifs, allowRepeat);
    } else if allowRepeat {
      SafeAfterRun(line[p..], ifs, q - p);
      assert line[p..][q - p + 1..] == line[q + 1..];
    } else {
      SafeAfterPair(line[p..], ifs);
      assert line[p..][2..] == line[q + 1..];
    }
  }

  lemma {:induction false} HeaderScanDefinedIff(line: string, ifs: char, allowRepeat: bool, start: nat, p: nat)
    requires start <= p <= |line|
    ensures HeaderScan(line, ifs, allowRepeat, start, p).Some? <==> HeaderLineSafe(line[p..], ifs, allowRepeat)
    decreases |line| - p
  {
    if p == |line| {
      assert line[p..] == [];
    } else if line[p] != ifs {
      HeaderScanDefinedIff(line, ifs, allowRepeat, start, p + 1);
      DefinedAtOther(line, ifs, allowRepeat, start, p);
    } else {
      var q := SkipRepeats(line, ifs, allowRepeat, p + 1);
      if q < |line| {
        HeaderScanDefinedIff(line, ifs, allowRepeat, q, q + 1);
      }
      HeaderScanAtSeparator(line, ifs, allowRepeat, start, p);
      SafeAtSeparator(line, ifs, allowRepeat, p, q);
    }
  }

  /** Shape of the header fields: every field after the first is non-empty
      and has no separator after its first character (that character is the
      untested one); the first field has no separator after its own first
      character, and none at all when that character was tested. */
  lemma {:induction false} HeaderScanShape(line: string, ifs: char, allowRepeat: bool, start: nat, p: nat)
    requires start <= p <= |line|
    requires forall k :: start < k < p ==> line[k] != ifs
    ensures var r := HeaderScan(line, ifs, allowRepeat, start, p);
      r.Some? ==>
        && (forall i :: 1 <= i < |r.value| ==> |r.value[i]| >= 1 && ifs !in r.value[i][1..])
        && (start < p ==> |r.value[0]| >= 1)
        && (forall k :: 1 <= k < |r.value[0]| ==> r.value[0][k] != ifs)
        && (start == p || line[start] != ifs ==> ifs !in r.value[0])
    decreases |line| - p
  {
    if p == |line| {
    } else if line[p] != ifs {
      HeaderScanShape(line, ifs, allowRepeat, start, p + 1);
    } else {
      var q := SkipRepeats(line, ifs, allowRepeat, p + 1);
      if q < |line| {
        HeaderScanShape(line, ifs, allowRepeat, q, q + 1);
        var r := HeaderScan(line, ifs, allowRepeat, q, q + 1);
        if r.Some? {
          var fs := [line[start..p]] + r.value;
          assert forall i :: 1 <= i < |fs| ==> fs[i] == r.value[i - 1];
          assert forall k :: start < k < p ==> line[start..p][1..][k - start - 1] == line[k];
        }
      }
    }
  }

  /** Without repeats the header fields join back to the line. */
  lemma {:induction false} HeaderScanJoin(line: string, ifs: char, start: nat, p: nat)
    requires start <= p <= |line|
    ensures var r := HeaderScan(line, ifs, false, start, p);
      r.Some? ==> Join(r.value, ifs) == line[start..]
    decreases |line| - p
  {
    if p == |line| {
    } else if line[p] != ifs {
      HeaderScanJoin(line, ifs, start, p + 1);
    } else if p + 1 < |line| {
      HeaderScanJoin(line, ifs, p + 1, p + 2);
      var r := HeaderScan(line, ifs, false, p + 1, p + 2);
      if r.Some? {
        assert ([line[start..p]] + r.value)[1..] == r.value;
        assert line[start..] == line[start..p] + [ifs] + line[p + 1..];
      }
    }
  }

  /** The header scan gives the data-line values whenever the character it
      skips untested is never a separator: always with repeats, and without
      repeats when no two separators are adjacent. */
  lemma {:induction false} HeaderScanMatchesDataScan(line: string, ifs: char, allowRepeat: bool, start: nat, p: nat)
    requires start <= p <= |line|
    requires !allowRepeat ==> forall k :: p <= k < |line| - 1 ==> !(line[k] == ifs && line[k + 1] == ifs)
    ensures var r := HeaderScan(line, ifs, allowRepeat, start, p);
      r.Some? ==> r.value == DataScan(line, ifs, allowRepeat, start, p)
    decreases |line| - p
  {
    if p == |line| {
    } else if line[p] != ifs {
      HeaderScanMatchesDataScan(line, ifs, allowRepeat, start, p + 1);
    } else {
      var q := SkipRepeats(line, ifs, allowRepeat, p + 1);
      if q < |line| {
        assert line[q] != ifs;
        HeaderScanMatchesDataScan(line, ifs, allowRepeat, q, q + 1);
      }
    }
  }

  /** The header-line split as written (lines 196-218), defined on the lines
      whose scan stays inside the string. The empty line splits to no fields;
      any other line to at least one. */
  function SplitHeaderLine(line: string, ifs: char, allowRepeat: bool): (r: seq<string>)
    requires HeaderLineSafe(line, ifs, allowRepeat)
    ensures |r| == 0 <==> |line| == 0
    ensures forall i :: 1 <= i < |r| ==> |r[i]| >= 1
    ensures !allowRepeat ==> Join(r, ifs) == line
    ensures !allowRepeat && |r| > 0 ==> ifs !in r[0]
    ensures !allowRepeat ==> forall i :: 1 <= i < |r| ==> ifs !in r[i][1..]
    ensures allowRepeat && |line| > 0 ==> r == SplitDataLine(line, ifs, true)
    ensures allowRepeat ==> forall i :: 0 <= i < |r| ==> ifs !in r[i]
  {
    if |line| == 0 then []
    else
      HeaderScanDefinedIff(line, ifs, allowRepeat, 0, 0);
      assert line[0..] == line;
      HeaderScanShape(line, ifs, allowRepeat, 0, 0);
      HeaderScanJoin(line, ifs, 0, 0);
      HeaderScanMatchesDataScan(line, ifs, true, 0, 0);
      HeaderScan(line, ifs, allowRepeat, 0, 0).value
  }

  /** The skipped character in action: without repeats "a,,b" keeps a
      separator inside its second header field, where the data-line split
      gives an empty middle value; and "a," makes the header scan run past
      the end of the string. */
  lemma HeaderSplitSkipsCharacter()
    ensures HeaderLineSafe("a,,b", ',', false)
    ensures SplitHeaderLine("a,,b", ',', false) == ["a", ",b"]
    ensures SplitDataLine("a,,b", ',', false) == ["a", "", "b"]
    ensures HeaderScan("a,", ',', false, 0, 0).None?
    ensures !HeaderLineSafe("a,", ',', false)
  {
    var line := "a,,b";
    assert TrailingRun(line, ',') == 0;
    assert HeaderScan(line, ',', false, 2, 4) == Some([",b"]);
    assert HeaderScan(line, ',', false, 2, 3) == Some([",b"]);
    assert SkipRepeats(line, ',', false, 2) == 2;
    assert line[0..1] == "a" && line[2..] == ",b" && line[1] == ',';
    assert [line[0..1]] + [",b"] == ["a", ",b"];
    assert HeaderScan(line, ',', false, 0, 1) == Some(["a", ",b"]);
    assert HeaderScan(line, ',', false, 0, 0) == Some(["a", ",b"]);
    SplitDataLineIsJoinInverse(line, ',', ["a", "", "b"]);
    assert TrailingRun("a,", ',') == 1;
  }

  /** The header split the scan at lines 201-215 evidently intends: the
      data-line rule, with the empty line still splitting to no fields. Total:
      no line makes it read past the end. */
  function CorrectedSplitHeaderLine(line: string, ifs: char, allowRepeat: bool): (r: seq<string>)
    ensures |r| == 0 <==> |line| == 0
    ensures forall i :: 0 <= i < |r| ==> ifs !in r[i]
    ensures !allowRepeat ==> Join(r, ifs) == line
    ensures allowRepeat ==> Join(r, ifs) == Collapse(line, ifs)
  {
    if |line| == 0 then [] else SplitDataLine(line, ifs, allowRepeat)
  }

  /** The correction changes nothing where the as-written scan is harmless:
      with repeats on every line it handles, and without repeats on lines
      with no two adjacent separators and no trailing one. */
  lemma CorrectedSplitAgrees(line: string, ifs: char, allowRepeat: bool)
    requires HeaderLineSafe(line, ifs, allowRepeat)
    requires !allowRepeat ==> forall k :: 0 <= k < |line| - 1 ==> !(line[k] == ifs && line[k + 1] == ifs)
    ensures SplitHeaderLine(line, ifs, allowRepeat) == CorrectedSplitHeaderLine(line, ifs, allowRepeat)
  {
    if |line| > 0 {
      HeaderScanDefinedIff(line, ifs, allowRepeat, 0, 0);
      assert line[0..] == line;
      HeaderScanMatchesDataScan(line, ifs, allowRepeat, 0, 0);
    }
  }
}
