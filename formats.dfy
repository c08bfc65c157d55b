/** The fixed table of chat-line formats, the regular-expression engine the two core
    functions call into, and the file they read. */
module Formats {
  import opened Records

  datatype Option<T> = None | Some(value: T)

  /** A compiled pattern: its source text and the number of capture groups it has. */
  datatype Regex = Regex(pattern: string, groups: nat)

  /** Python's `re` engine, which the model does not look inside: `engine(p, line)` is
      `p.match(line)`, `None` when the pattern does not match at the start of the line, and
      `Some(m.groups())` when it does. */
  type Engine = (Regex, string) -> Option<seq<string>>

  /** A well-behaved engine: a match yields one captured string per capture group. */
  ghost predicate Sound(engine: Engine) {
    forall p: Regex, line: string :: engine(p, line).Some? ==> |engine(p, line).value| == p.groups
  }

  /** A chat file as the two core functions see it. `lines` are the physical lines the file
      yields before reading stops, without their line terminators; `failsAfter` says that
      reading the next line raises (for instance a decoding error) instead of ending the file. */
  datatype ChatFile =
    | NotFound                                       // open() raises FileNotFoundError
    | OpenFails                                      // open() raises any other exception
    | Opened(lines: seq<string>, failsAfter: bool)

  /** What format inference hands to the extractor: the capture pattern and its column names. */
  datatype Chosen = Chosen(pattern: Regex, columns: seq<string>)

  /** The candidate formats, one variant per entry of `patterns_to_try`. */
  datatype Format = BracketDateTimeUser | DateTimeDashUser | BracketTimestampUser | TimestampDashUser
  {
    /** The shape test, applied to the first sample line only. */
    function Test(): Regex {
      match this
      case BracketDateTimeUser => Regex(@"^\[.+?,\s*.+?\]\s*[^:]+:\s*.*", 0)
      case DateTimeDashUser => Regex(@"^\d{1,2}/\d{1,2}/\d{2,4},\s*\d{1,2}:\d{1,2}\s*-\s*[^:]+:\s*.*", 0)
      case BracketTimestampUser => Regex(@"^\[.+?\]\s*[^:]+:\s*.*", 0)
      case TimestampDashUser => Regex(@"^.+?\s*-\s*[^:]+:\s*.*", 0)
    }

    /** The capture expression, applied to every sample line and, once chosen, to every line. */
    function Capture(): Regex {
      match this
      case BracketDateTimeUser => Regex(@"^\[([^,]+),\s*(.+?)\]\s*([^:]+):\s*(.*)$", 4)
      case DateTimeDashUser => Regex(@"^([^,]+),\s*([^-]+)\s*-\s*([^:]+):\s*(.*)$", 4)
      case BracketTimestampUser => Regex(@"^\[(.+?)\]\s*([^:]+):\s*(.*)$", 3)
      case TimestampDashUser => Regex(@"^(.+?)\s*-\s*([^:]+):\s*(.*)$", 3)
    }

    function Columns(): seq<string> {
      match this
      case BracketDateTimeUser => ["Date", "Time", "User", "Message"]
      case DateTimeDashUser => ["Date", "Time", "User", "Message"]
      case BracketTimestampUser => ["Timestamp", "User", "Message"]
      case TimestampDashUser => ["Timestamp", "User", "Message"]
    }

    function ToChosen(): Chosen {
      Chosen(Capture(), Columns())
    }
  }

  /** `patterns_to_try` in its insertion order, which is the order of priority. */
  const PatternsToTry: seq<Format> :=
    [BracketDateTimeUser, DateTimeDashUser, BracketTimestampUser, TimestampDashUser]

  /** Where a format stands in `PatternsToTry`: lower is tried first. */
  function Rank(f: Format): (i: nat)
    ensures i < |PatternsToTry| && PatternsToTry[i] == f
  {
    match f
    case BracketDateTimeUser => 0
    case DateTimeDashUser => 1
    case BracketTimestampUser => 2
    case TimestampDashUser => 3
  }

  /** Every format has one distinct column name per capture group, and the four
      entries are the four formats, each once. */
  lemma TableWellFormed()
    ensures forall f: Format :: |f.Columns()| == f.Capture().groups && Distinct(f.Columns())
    ensures forall f: Format :: f in PatternsToTry
    ensures forall i, j :: 0 <= i < j < |PatternsToTry| ==> PatternsToTry[i] != PatternsToTry[j]
  {
    forall f: Format ensures f in PatternsToTry {
      assert f.BracketDateTimeUser? || f.DateTimeDashUser? || f.BracketTimestampUser? || f.TimestampDashUser?;
      assert f == PatternsToTry[0] || f == PatternsToTry[1] || f == PatternsToTry[2] || f == PatternsToTry[3];
    }
  }

  /** Different formats hand different results to the extractor, so the result of
      inference names the format that produced it. */
  lemma ChosenIdentifiesFormat(f: Format, g: Format)
    requires f.ToChosen() == g.ToChosen()
    ensures f == g
  {
  }
}
