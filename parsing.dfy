/** Record extraction (`parse_chat_with_pattern`): strip every line, skip the blank ones and
    the ones the pattern does not match, and turn each remaining line into a record. */
module Parsing {
  import opened Text
  import opened Records
  import opened Formats
  import opened Gather

  /** A line yields a record when it is not blank once stripped and the pattern matches
      the stripped line. */
  predicate Yields(line: string, pattern: Regex, engine: Engine) {
    Strip(line) != [] && engine(pattern, Strip(line)).Some?
  }

  /** The record a yielding line produces. */
  function RecordOf(line: string, pattern: Regex, columns: seq<string>, engine: Engine): Record
    requires Yields(line, pattern, engine)
  {
    MakeRecord(columns, engine(pattern, Strip(line)).value)
  }

  /** What one line adds to the result: its record, or nothing. */
  function LineRecords(line: string, pattern: Regex, columns: seq<string>, engine: Engine): (out: seq<Record>)
    ensures |out| <= 1
    ensures out != [] <==> Yields(line, pattern, engine)
  {
    var stripped := Strip(line);
    if stripped == [] then []
    else
      match engine(pattern, stripped)
      case None => []
      case Some(groups) => [MakeRecord(columns, groups)]
  }

  /** The loop body as a step from a line to what it appends. */
  function PerLine(pattern: Regex, columns: seq<string>, engine: Engine): string -> seq<Record> {
    line => LineRecords(line, pattern, columns, engine)
  }

  /** `parsed_data` after the loop has gone through `lines`. */
  function Extracted(lines: seq<string>, pattern: Regex, columns: seq<string>, engine: Engine): seq<Record> {
    FlatMap(lines, PerLine(pattern, columns, engine))
  }

  /** The lines the `for line in file` loop sees before it stops: none when the file cannot
      be opened, else every line the file yields before a read raises or the file ends. */
  function LinesRead(file: ChatFile): seq<string> {
    match file
    case NotFound => []
    case OpenFails => []
    case Opened(lines, _) => lines
  }

  /** The result of `parse_chat_with_pattern(file, pattern, columns)`. An exception raised
      while reading ends the loop but keeps the records gathered so far. */
  function Parsed(file: ChatFile, pattern: Regex, columns: seq<string>, engine: Engine): seq<Record> {
    Extracted(LinesRead(file), pattern, columns, engine)
  }

  /** `parse_chat_with_pattern`: the loop over the file's lines. */
  method ParseChatWithPattern(file: ChatFile, pattern: Regex, columns: seq<string>, engine: Engine)
    returns (parsedData: seq<Record>)
    ensures parsedData == Parsed(file, pattern, columns, engine)
  {
    parsedData := [];
    if file.NotFound? || file.OpenFails? {
      return;
    }
    var lines := file.lines;
    for i := 0 to |lines|
      invariant parsedData == Extracted(lines[..i], pattern, columns, engine)
    {
      ExtractedSnoc(lines[..i], lines[i], pattern, columns, engine);
      assert lines[..i + 1] == lines[..i] + [lines[i]];
      var line := Strip(lines[i]);
      if line == [] {
        continue;
      }
      var groups := engine(pattern, line);
      if groups.Some? {
        var record := DictZip(columns, groups.value);
        record := StripValues(record);
        parsedData := parsedData + [record];
      }
    }
    assert lines[..|lines|] == lines;
    // When file.failsAfter holds, reading the next line raises; the handler lets the
    // function return the records gathered so far, which is parsedData as it stands.
  }

  /** One more line adds what that line yields at the end. */
  lemma ExtractedSnoc(lines: seq<string>, line: string, pattern: Regex, columns: seq<string>, engine: Engine)
    ensures Extracted(lines + [line], pattern, columns, engine)
         == Extracted(lines, pattern, columns, engine) + LineRecords(line, pattern, columns, engine)
  {
    FlatMapSnoc(lines, line, PerLine(pattern, columns, engine));
  }

  /** A line yields its record, or nothing. */
  lemma LineRecordsOf(line: string, pattern: Regex, columns: seq<string>, engine: Engine)
    ensures LineRecords(line, pattern, columns, engine)
         == if Yields(line, pattern, engine) then [RecordOf(line, pattern, columns, engine)] else []
  {
  }

  /** One more line adds its record at the end when it yields one, and nothing otherwise. */
  lemma ExtractedStep(lines: seq<string>, line: string, pattern: Regex, columns: seq<string>, engine: Engine)
    ensures Extracted(lines + [line], pattern, columns, engine)
         == Extracted(lines, pattern, columns, engine)
            + if Yields(line, pattern, engine) then [RecordOf(line, pattern, columns, engine)] else []
  {
    ExtractedSnoc(lines, line, pattern, columns, engine);
    LineRecordsOf(line, pattern, columns, engine);
  }

  /** Extraction works line by line: the records of two stretches of lines, one after the
      other, are the records of the first followed by the records of the second. */
  lemma ExtractedConcat(a: seq<string>, b: seq<string>, pattern: Regex, columns: seq<string>, engine: Engine)
    ensures Extracted(a + b, pattern, columns, engine)
         == Extracted(a, pattern, columns, engine) + Extracted(b, pattern, columns, engine)
  {
    FlatMapConcat(a, b, PerLine(pattern, columns, engine));
  }

  /** The indices of the lines that yield a record, in increasing order. */
  function YieldingLines(lines: seq<string>, pattern: Regex, engine: Engine): (idx: seq<nat>)
    ensures |idx| <= |lines|
    ensures forall k :: 0 <= k < |idx| ==> idx[k] < |lines|
    ensures forall k, m :: 0 <= k < m < |idx| ==> idx[k] < idx[m]
  {
    Hits(lines, line => Yields(line, pattern, engine))
  }

  /** The k-th record is the record of the k-th line that yields one. */
  lemma RecordsOfYieldingLines(lines: seq<string>, pattern: Regex, columns: seq<string>, engine: Engine)
    ensures var idx := YieldingLines(lines, pattern, engine);
      var records := Extracted(lines, pattern, columns, engine);
      && |records| == |idx|
      && (forall k :: 0 <= k < |idx| ==>
            Yields(lines[idx[k]], pattern, engine)
            && records[k] == RecordOf(lines[idx[k]], pattern, columns, engine))
  {
    var f, p := PerLine(pattern, columns, engine), line => Yields(line, pattern, engine);
    FlatMapAtHits(lines, f, p);
    var idx := YieldingLines(lines, pattern, engine);
    forall k | 0 <= k < |idx|
      ensures Extracted(lines, pattern, columns, engine)[k] == RecordOf(lines[idx[k]], pattern, columns, engine)
    {
      LineRecordsOf(lines[idx[k]], pattern, columns, engine);
    }
  }

  /** Records follow the input: the k-th record is the record of the k-th line that yields
      one; those lines are listed in increasing order, every line that yields a record is
      among them, and blank or unmatched lines contribute nothing. */
  lemma RecordsFollowInputOrder(lines: seq<string>, pattern: Regex, columns: seq<string>, engine: Engine)
    ensures var idx := YieldingLines(lines, pattern, engine);
      var records := Extracted(lines, pattern, columns, engine);
      && |records| == |idx|
      && (forall k :: 0 <= k < |idx| ==>
            idx[k] < |lines| && Yields(lines[idx[k]], pattern, engine)
            && records[k] == RecordOf(lines[idx[k]], pattern, columns, engine))
      && (forall k, m :: 0 <= k < m < |idx| ==> idx[k] < idx[m])
      && (forall i :: 0 <= i < |lines| && Yields(lines[i], pattern, engine) ==> i in idx)
  {
    HitsComplete(lines, line => Yields(line, pattern, engine));
    RecordsOfYieldingLines(lines, pattern, columns, engine);
  }

  /** Each line adds at most one record. */
  lemma AtMostOneRecordPerLine(lines: seq<string>, pattern: Regex, columns: seq<string>, engine: Engine)
    ensures |Extracted(lines, pattern, columns, engine)| <= |lines|
  {
    RecordsOfYieldingLines(lines, pattern, columns, engine);
  }

  /** The first three lines of the worked case below: a matching line, a skipped one and a
      matching one give the two records in order. */
  lemma MatchSkipMatch(l1: string, l2: string, l3: string, pattern: Regex, columns: seq<string>, engine: Engine)
    requires Yields(l1, pattern, engine) && !Yields(l2, pattern, engine) && Yields(l3, pattern, engine)
    ensures Extracted([l1, l2, l3], pattern, columns, engine)
         == [RecordOf(l1, pattern, columns, engine), RecordOf(l3, pattern, columns, engine)]
  {
    var e1 := Extracted([l1], pattern, columns, engine);
    assert e1 == [RecordOf(l1, pattern, columns, engine)] by {
      ExtractedStep([], l1, pattern, columns, engine);
      assert [] + [l1] == [l1];
    }
    assert Extracted([l1, l2], pattern, columns, engine) == e1 by {
      ExtractedStep([l1], l2, pattern, columns, engine);
      assert [l1] + [l2] == [l1, l2];
    }
    ExtractedStep([l1, l2], l3, pattern, columns, engine);
    assert [l1, l2] + [l3] == [l1, l2, l3];
  }

  /** The worked case: of five lines, the pattern matches the first, third and fifth; the
      result is exactly their three records, in that order, and the other two are skipped
      without error. */
  lemma NoiseLinesAreSkipped(l1: string, l2: string, l3: string, l4: string, l5: string,
                             pattern: Regex, columns: seq<string>, engine: Engine)
    requires Yields(l1, pattern, engine) && Yields(l3, pattern, engine) && Yields(l5, pattern, engine)
    requires !Yields(l2, pattern, engine) && !Yields(l4, pattern, engine)
    ensures Extracted([l1, l2, l3, l4, l5], pattern, columns, engine)
         == [RecordOf(l1, pattern, columns, engine), RecordOf(l3, pattern, columns, engine),
             RecordOf(l5, pattern, columns, engine)]
  {
    var e3 := Extracted([l1, l2, l3], pattern, columns, engine);
    MatchSkipMatch(l1, l2, l3, pattern, columns, engine);
    assert Extracted([l1, l2, l3, l4], pattern, columns, engine) == e3 by {
      ExtractedStep([l1, l2, l3], l4, pattern, columns, engine);
      assert [l1, l2, l3] + [l4] == [l1, l2, l3, l4];
    }
    ExtractedStep([l1, l2, l3, l4], l5, pattern, columns, engine);
    assert [l1, l2, l3, l4] + [l5] == [l1, l2, l3, l4, l5];
  }

  /** A line that yields no record (blank, or not matched by the pattern) can be dropped
      from anywhere in the file without changing the result: it is skipped silently. */
  lemma SkippedLineContributesNothing(before: seq<string>, line: string, after: seq<string>,
                                      pattern: Regex, columns: seq<string>, engine: Engine)
    requires !Yields(line, pattern, engine)
    ensures Extracted(before + [line] + after, pattern, columns, engine)
         == Extracted(before + after, pattern, columns, engine)
  {
    calc {
      Extracted(before + [line] + after, pattern, columns, engine);
      { ExtractedConcat(before + [line], after, pattern, columns, engine); }
      Extracted(before + [line], pattern, columns, engine) + Extracted(after, pattern, columns, engine);
      { ExtractedSnoc(before, line, pattern, columns, engine); }
      Extracted(before, pattern, columns, engine) + Extracted(after, pattern, columns, engine);
      { ExtractedConcat(before, after, pattern, columns, engine); }
      Extracted(before + after, pattern, columns, engine);
    }
  }

  /** A line that is all whitespace never yields a record, whatever the pattern. */
  lemma BlankLineYieldsNothing(line: string, pattern: Regex, engine: Engine)
    requires AllSpace(line)
    ensures !Yields(line, pattern, engine)
  {
    StripEmptyIffAllSpace(line);
  }

  /** Every record is a well-formed dict whose values have no whitespace at either end. */
  lemma {:induction false} RecordsAreClean(lines: seq<string>, pattern: Regex, columns: seq<string>, engine: Engine)
    ensures forall r: Record :: r in Extracted(lines, pattern, columns, engine) ==>
      Valid(r) && forall k :: k in r.values ==> IsStripped(r.values[k])
  {
    if lines != [] {
      var line := lines[|lines| - 1];
      RecordsAreClean(lines[..|lines| - 1], pattern, columns, engine);
      if Yields(line, pattern, engine) {
        CleanedValuesStripped(DictZip(columns, engine(pattern, Strip(line)).value));
      }
    }
  }

  /** No partial records: when the engine yields one string per capture group and the
      columns are distinct and as many as the groups, every record has every column as a
      key, in column order. */
  lemma {:induction false} RecordsAreComplete(lines: seq<string>, pattern: Regex, columns: seq<string>, engine: Engine)
    requires Sound(engine)
    requires |columns| == pattern.groups && Distinct(columns)
    ensures forall r: Record :: r in Extracted(lines, pattern, columns, engine) ==> r.keys == columns
  {
    if lines != [] {
      var line := lines[|lines| - 1];
      RecordsAreComplete(lines[..|lines| - 1], pattern, columns, engine);
      if Yields(line, pattern, engine) {
        var groups := engine(pattern, Strip(line)).value;
        assert columns[..Min(|columns|, |groups|)] == columns;
        DictZipPositional(columns, groups);
      }
    }
  }

  /** Zip pairing in a record: with distinct column names, its keys are the first
      min(|columns|, |groups|) columns, and column i holds the i-th captured group, stripped. */
  lemma RecordPairsColumnsWithGroups(line: string, pattern: Regex, columns: seq<string>, engine: Engine)
    requires Yields(line, pattern, engine)
    requires Distinct(columns[..Min(|columns|, |engine(pattern, Strip(line)).value|)])
    ensures var groups := engine(pattern, Strip(line)).value;
      var r := RecordOf(line, pattern, columns, engine);
      && r.keys == columns[..Min(|columns|, |groups|)]
      && forall i :: 0 <= i < Min(|columns|, |groups|) ==> r.values[columns[i]] == Strip(groups[i])
  {
    DictZipPositional(columns, engine(pattern, Strip(line)).value);
  }

  /** A missing or unopenable file gives no records; a read that fails part-way keeps the
      records of every line read before the failure. */
  lemma ReadFailures(lines: seq<string>, pattern: Regex, columns: seq<string>, engine: Engine)
    ensures Parsed(NotFound, pattern, columns, engine) == []
    ensures Parsed(OpenFails, pattern, columns, engine) == []
    ensures Parsed(Opened(lines, true), pattern, columns, engine) == Extracted(lines, pattern, columns, engine)
  {
  }
}
