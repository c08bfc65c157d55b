/** Format inference (`auto_generate_pattern`): read a sample of the file, then take the
    first candidate format, in priority order, whose shape test accepts the first sample line
    and whose capture expression matches more than 90% of the sample. */
module Inference {
  import opened Text
  import opened Records
  import opened Formats
  import opened Gather

  /** The sample drawn from `window`: every line stripped, the empty ones dropped, in order. */
  function NonBlank(window: seq<string>): (sample: seq<string>)
    ensures |sample| <= |window|
    ensures forall i :: 0 <= i < |sample| ==> sample[i] != [] && IsStripped(sample[i])
  {
    if window == [] then []
    else
      var line := Strip(window[|window| - 1]);
      StripIsStripped(window[|window| - 1]);
      NonBlank(window[..|window| - 1]) + (if line != [] then [line] else [])
  }

  lemma NonBlankSnoc(window: seq<string>, line: string)
    ensures NonBlank(window + [line]) == NonBlank(window) + (if Strip(line) != [] then [Strip(line)] else [])
  {
    assert (window + [line])[..|window|] == window;
  }

  /** Whether a window line reaches the sample: its strip is not empty. */
  predicate HasText(line: string) {
    Strip(line) != []
  }

  /** What one window line contributes to the sample: its strip, when that is not empty. */
  function Kept(line: string): seq<string> {
    if HasText(line) then [Strip(line)] else []
  }

  /** The sample is what the loop appends line by line, each line contributing `Kept`. */
  lemma {:induction false} NonBlankIsGathered(window: seq<string>)
    ensures NonBlank(window) == FlatMap(window, Kept)
  {
    if window != [] {
      NonBlankIsGathered(window[..|window| - 1]);
    }
  }

  /** The sample is exactly the strips of the window lines that have text, in window order:
      its k-th line is the strip of the k-th such window line, and every window line with text
      is among them. */
  lemma NonBlankKeepsLinesWithText(window: seq<string>)
    ensures |NonBlank(window)| == |Hits(window, HasText)|
    ensures forall k :: 0 <= k < |Hits(window, HasText)| ==>
      HasText(window[Hits(window, HasText)[k]]) && NonBlank(window)[k] == Strip(window[Hits(window, HasText)[k]])
    ensures forall i :: 0 <= i < |window| && HasText(window[i]) ==> i in Hits(window, HasText)
  {
    NonBlankIsGathered(window);
    FlatMapAtHits(window, Kept, HasText);
    HitsComplete(window, HasText);
  }

  /** A window of whitespace-only lines gives an empty sample. */
  lemma {:induction false} NonBlankOfBlankLines(window: seq<string>)
    requires forall i :: 0 <= i < |window| ==> AllSpace(window[i])
    ensures NonBlank(window) == []
  {
    if window != [] {
      var init := window[..|window| - 1];
      assert forall i :: 0 <= i < |init| ==> init[i] == window[i];
      NonBlankOfBlankLines(init);
      StripEmptyIffAllSpace(window[|window| - 1]);
    }
  }

  /** The sample the first loop collects from `file` when it reads `linesToSample` physical
      lines, or `None` when opening or reading raises. Past the end of the file `readline()`
      returns "", which is blank, so only the lines the file holds can contribute. */
  function Sample(file: ChatFile, linesToSample: int): (s: Option<seq<string>>)
    ensures s.Some? ==> |s.value| <= (if linesToSample <= 0 then 0 else linesToSample)
    ensures s.Some? ==> forall i :: 0 <= i < |s.value| ==> s.value[i] != [] && IsStripped(s.value[i])
  {
    match file
    case NotFound => None
    case OpenFails => None
    case Opened(lines, failsAfter) =>
      if failsAfter && linesToSample > |lines| then None
      else Some(NonBlank(lines[..Min(if linesToSample <= 0 then 0 else linesToSample, |lines|)]))
  }

  /** How many sample lines `capture` matches (`match_count` after the inner loop). */
  function MatchCount(capture: Regex, sample: seq<string>, engine: Engine): (m: nat)
    ensures m <= |sample|
  {
    if sample == [] then 0
    else
      MatchCount(capture, sample[..|sample| - 1], engine)
      + (if engine(capture, sample[|sample| - 1]).Some? then 1 else 0)
  }

  lemma MatchCountSnoc(capture: Regex, sample: seq<string>, line: string, engine: Engine)
    ensures MatchCount(capture, sample + [line], engine)
         == MatchCount(capture, sample, engine) + (if engine(capture, line).Some? then 1 else 0)
  {
    assert (sample + [line])[..|sample|] == sample;
  }

  /** `match_count / len(sample_lines) > 0.9`, in exact arithmetic. */
  predicate Consistent(matchCount: nat, sampleSize: nat) {
    10 * matchCount > 9 * sampleSize
  }

  /** A format is accepted for a sample when its shape test matches the first sample line
      and its capture expression matches more than 90% of the sample. */
  predicate Qualifies(f: Format, sample: seq<string>, engine: Engine)
    requires sample != []
  {
    engine(f.Test(), sample[0]).Some? && Consistent(MatchCount(f.Capture(), sample, engine), |sample|)
  }

  /** The index of the first entry of `PatternsToTry`, at or after `from`, that qualifies:
      it qualifies and nothing between `from` and it does; `None` exactly when no entry
      from `from` on qualifies. */
  function FirstQualifying(sample: seq<string>, engine: Engine, from: nat): (w: Option<nat>)
    requires sample != [] && from <= |PatternsToTry|
    ensures w.Some? ==> from <= w.value < |PatternsToTry| && Qualifies(PatternsToTry[w.value], sample, engine)
    ensures w.Some? ==> forall j :: from <= j < w.value ==> !Qualifies(PatternsToTry[j], sample, engine)
    ensures w.None? <==> forall j :: from <= j < |PatternsToTry| ==> !Qualifies(PatternsToTry[j], sample, engine)
    decreases |PatternsToTry| - from
  {
    if from == |PatternsToTry| then None
    else if Qualifies(PatternsToTry[from], sample, engine) then Some(from)
    else FirstQualifying(sample, engine, from + 1)
  }

  /** The result of `auto_generate_pattern(file, lines_to_sample)`. */
  function Inferred(file: ChatFile, linesToSample: int, engine: Engine): Option<Chosen> {
    match Sample(file, linesToSample)
    case None => None
    case Some(sample) =>
      if sample == [] then None
      else
        match FirstQualifying(sample, engine, 0)
        case None => None
        case Some(i) => Some(PatternsToTry[i].ToChosen())
  }

  /** The first loop of `auto_generate_pattern`: read `linesToSample` physical lines,
      keep the stripped non-empty ones; `None` when opening or reading raises. */
  method CollectSample(file: ChatFile, linesToSample: int) returns (sample: Option<seq<string>>)
    ensures sample == Sample(file, linesToSample)
  {
    if file.NotFound? || file.OpenFails? {
      return None;
    }
    var lines, failsAfter := file.lines, file.failsAfter;
    var sampleLines: seq<string> := [];
    var i := 0;
    while i < linesToSample
      invariant 0 <= i && (i <= linesToSample || i == 0)
      invariant failsAfter ==> i <= |lines|
      invariant sampleLines == NonBlank(lines[..Min(i, |lines|)])
    {
      var line: string;
      if i < |lines| {
        line := Strip(lines[i]);
        assert NonBlank(lines[..Min(i + 1, |lines|)]) == sampleLines + (if line != [] then [line] else []) by {
          assert lines[..i + 1] == lines[..i] + [lines[i]];
          NonBlankSnoc(lines[..i], lines[i]);
        }
      } else if failsAfter {
        return None;
      } else {
        line := "";  // readline() at the end of the file
        assert Min(i + 1, |lines|) == Min(i, |lines|);
      }
      if line != [] {
        sampleLines := sampleLines + [line];
      }
      i := i + 1;
    }
    assert Min(i, |lines|) == Min(if linesToSample <= 0 then 0 else linesToSample, |lines|);
    return Some(sampleLines);
  }

  /** The inner loop: how many sample lines the capture expression matches. */
  method CountMatches(capture: Regex, sampleLines: seq<string>, engine: Engine) returns (matchCount: nat)
    ensures matchCount == MatchCount(capture, sampleLines, engine)
  {
    matchCount := 0;
    for j := 0 to |sampleLines|
      invariant matchCount == MatchCount(capture, sampleLines[..j], engine)
    {
      assert MatchCount(capture, sampleLines[..j + 1], engine)
          == matchCount + (if engine(capture, sampleLines[j]).Some? then 1 else 0) by {
        assert sampleLines[..j + 1] == sampleLines[..j] + [sampleLines[j]];
        MatchCountSnoc(capture, sampleLines[..j], sampleLines[j], engine);
      }
      if engine(capture, sampleLines[j]).Some? {
        matchCount := matchCount + 1;
      }
    }
    assert sampleLines[..|sampleLines|] == sampleLines;
  }

  /** The selection loop of `auto_generate_pattern` over a non-empty sample: the first
      candidate, in priority order, that qualifies. */
  method SelectFormat(sampleLines: seq<string>, engine: Engine) returns (result: Option<Chosen>)
    requires sampleLines != []
    ensures result.None? <==> FirstQualifying(sampleLines, engine, 0).None?
    ensures result.Some? ==> result.value == PatternsToTry[FirstQualifying(sampleLines, engine, 0).value].ToChosen()
  {
    var k := 0;
    while k < |PatternsToTry|
      invariant 0 <= k <= |PatternsToTry|
      invariant FirstQualifying(sampleLines, engine, 0) == FirstQualifying(sampleLines, engine, k)
    {
      var candidate := PatternsToTry[k];
      if engine(candidate.Test(), sampleLines[0]).Some? {
        var matchCount := CountMatches(candidate.Capture(), sampleLines, engine);
        if Consistent(matchCount, |sampleLines|) {
          return Some(Chosen(candidate.Capture(), candidate.Columns()));
        }
      }
      k := k + 1;
    }
    return None;
  }

  /** `auto_generate_pattern(file, lines_to_sample)`: collect the sample, give up on an
      unreadable file or an empty sample, otherwise try the candidates in order. */
  method AutoGeneratePattern(file: ChatFile, linesToSample: int, engine: Engine) returns (result: Option<Chosen>)
    ensures result == Inferred(file, linesToSample, engine)
  {
    var sample := CollectSample(file, linesToSample);
    if sample.None? || sample.value == [] {
      return None;
    }
    result := SelectFormat(sample.value, engine);
  }

  /** With nothing to sample (no line read, or only blank lines read) the answer is "no
      format", whatever the candidates would say: no engine is consulted. */
  lemma EmptySampleYieldsNothing(file: ChatFile, linesToSample: int, engine: Engine, other: Engine)
    requires Sample(file, linesToSample) == Some([])
    ensures Inferred(file, linesToSample, engine) == Inferred(file, linesToSample, other) == None
  {
  }

  /** A file whose lines are all whitespace finds no format, however many lines are sampled
      and whatever the engine says. */
  lemma AllBlankFileYieldsNothing(lines: seq<string>, failsAfter: bool, linesToSample: int, engine: Engine)
    requires forall i :: 0 <= i < |lines| ==> AllSpace(lines[i])
    ensures Inferred(Opened(lines, failsAfter), linesToSample, engine) == None
  {
    var window := lines[..Min(if linesToSample <= 0 then 0 else linesToSample, |lines|)];
    assert forall i :: 0 <= i < |window| ==> window[i] == lines[i];
    NonBlankOfBlankLines(window);
  }

  /** `lines_to_sample <= 0` reads nothing, so nothing is found. */
  lemma NoLinesToSample(file: ChatFile, linesToSample: int, engine: Engine)
    requires linesToSample <= 0
    ensures Inferred(file, linesToSample, engine) == None
  {
  }

  /** A missing or unreadable file gives the same `(None, None)` as a file whose format is
      not recognised; the caller cannot tell the two apart. */
  lemma ReadFailureLooksLikeNoFormat(file: ChatFile, linesToSample: int, engine: Engine)
    requires || file.NotFound? || file.OpenFails?
             || (file.Opened? && file.failsAfter && linesToSample > |file.lines|)
    ensures Inferred(file, linesToSample, engine) == None
  {
  }

  /** Only the first `linesToSample` physical lines are read: the rest of the file, and
      whether reading it would fail, cannot change the answer. */
  lemma {:induction false} OnlyTheWindowIsRead(lines: seq<string>, failsAfter: bool, linesToSample: int, engine: Engine)
    requires 0 <= linesToSample <= |lines|
    ensures Inferred(Opened(lines, failsAfter), linesToSample, engine)
         == Inferred(Opened(lines[..linesToSample], false), linesToSample, engine)
  {
    assert lines[..linesToSample][..Min(linesToSample, linesToSample)] == lines[..Min(linesToSample, |lines|)];
  }

  /** First wins: on a non-empty sample, format `PatternsToTry[i]` is the answer exactly when
      it qualifies (its shape test accepts the first line and its capture expression matches
      more than 90% of the sample) and no earlier format qualifies. */
  lemma {:induction false} InferredIsFirstQualifying(file: ChatFile, linesToSample: int, engine: Engine, i: nat)
    requires Sample(file, linesToSample).Some? && Sample(file, linesToSample).value != []
    requires i < |PatternsToTry|
    ensures var sample := Sample(file, linesToSample).value;
      Inferred(file, linesToSample, engine) == Some(PatternsToTry[i].ToChosen())
      <==> Qualifies(PatternsToTry[i], sample, engine)
           && forall j :: 0 <= j < i ==> !Qualifies(PatternsToTry[j], sample, engine)
  {
    var sample := Sample(file, linesToSample).value;
    var w := FirstQualifying(sample, engine, 0);
    TableWellFormed();
    if Inferred(file, linesToSample, engine) == Some(PatternsToTry[i].ToChosen()) {
      ChosenIdentifiesFormat(PatternsToTry[w.value], PatternsToTry[i]);
      assert w.value == i;
    }
    if Qualifies(PatternsToTry[i], sample, engine) && forall j :: 0 <= j < i ==> !Qualifies(PatternsToTry[j], sample, engine) {
      assert w.Some?;
      assert w.value == i;
    }
  }

  /** On a non-empty sample, "no format found" comes back exactly when no format qualifies. */
  lemma {:induction false} NothingFoundIffNoneQualifies(file: ChatFile, linesToSample: int, engine: Engine)
    requires Sample(file, linesToSample).Some? && Sample(file, linesToSample).value != []
    ensures Inferred(file, linesToSample, engine) == None
        <==> forall f: Format :: !Qualifies(f, Sample(file, linesToSample).value, engine)
  {
    var sample := Sample(file, linesToSample).value;
    TableWellFormed();
    if Inferred(file, linesToSample, engine) == None {
      forall f: Format ensures !Qualifies(f, sample, engine) {
        assert PatternsToTry[Rank(f)] == f;
      }
    }
  }

  /** The shape test gates a format: when it rejects the first sample line the format is
      never the answer, however many sample lines its capture expression matches. */
  lemma {:induction false} ShapeTestGates(file: ChatFile, linesToSample: int, engine: Engine, f: Format)
    requires Sample(file, linesToSample).Some? && Sample(file, linesToSample).value != []
    requires engine(f.Test(), Sample(file, linesToSample).value[0]).None?
    ensures Inferred(file, linesToSample, engine) != Some(f.ToChosen())
  {
    InferredIsFirstQualifying(file, linesToSample, engine, Rank(f));
  }

  /** The 90% threshold is strict: on a 20-line sample where no earlier format qualifies and
      whose first line passes the shape test of `PatternsToTry[i]`, 18 matching lines are not
      enough and 19 are. */
  lemma {:induction false} ThresholdIsStrict(file: ChatFile, linesToSample: int, engine: Engine, i: nat)
    requires Sample(file, linesToSample).Some? && |Sample(file, linesToSample).value| == 20
    requires i < |PatternsToTry|
    requires engine(PatternsToTry[i].Test(), Sample(file, linesToSample).value[0]).Some?
    requires forall j :: 0 <= j < i ==> !Qualifies(PatternsToTry[j], Sample(file, linesToSample).value, engine)
    ensures var m := MatchCount(PatternsToTry[i].Capture(), Sample(file, linesToSample).value, engine);
      && (m == 18 ==> Inferred(file, linesToSample, engine) != Some(PatternsToTry[i].ToChosen()))
      && (m == 19 ==> Inferred(file, linesToSample, engine) == Some(PatternsToTry[i].ToChosen()))
  {
    InferredIsFirstQualifying(file, linesToSample, engine, i);
  }

  /** A one-line sample accepts a format exactly when both its shape test and its capture
      expression match that line: one out of one is the only count above 90%. */
  lemma SingleLineSample(f: Format, line: string, engine: Engine)
    ensures Qualifies(f, [line], engine) <==> engine(f.Test(), line).Some? && engine(f.Capture(), line).Some?
  {
    assert [line][..0] == [];
  }

  /** Priority: when format `PatternsToTry[i]` qualifies, the answer is that format or one
      before it in the table, never a later, more permissive one. */
  lemma {:induction false} EarlierFormatWins(file: ChatFile, linesToSample: int, engine: Engine, i: nat)
    requires Sample(file, linesToSample).Some? && Sample(file, linesToSample).value != []
    requires i < |PatternsToTry| && Qualifies(PatternsToTry[i], Sample(file, linesToSample).value, engine)
    ensures exists j :: 0 <= j <= i && Inferred(file, linesToSample, engine) == Some(PatternsToTry[j].ToChosen())
  {
    var w := FirstQualifying(Sample(file, linesToSample).value, engine, 0);
    assert Inferred(file, linesToSample, engine) == Some(PatternsToTry[w.value].ToChosen());
  }

  /** Whatever is found comes from the table: one distinct column name per capture group of
      the returned pattern, four for the date-and-time formats and three for the others. */
  lemma ChosenArity(file: ChatFile, linesToSample: int, engine: Engine)
    requires Inferred(file, linesToSample, engine).Some?
    ensures var c := Inferred(file, linesToSample, engine).value;
      |c.columns| == c.pattern.groups && (c.pattern.groups == 3 || c.pattern.groups == 4)
      && Distinct(c.columns)
  {
    TableWellFormed();
  }
}
