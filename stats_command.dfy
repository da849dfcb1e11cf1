/**
 * The `stats` command's output: the statistics as CSV (a `metric,value`
 * header, then one `key,value` line per statistic, fields quoted as in
 * section 2 of RFC 4180), and the choice between JSON, CSV and the table
 * for printing and for exporting. JSON encoding, the table and file writes
 * are outside the model.
 */
module StatsCommand {
  import opened Wrappers
  import opened OrderedDict
  import opened PyText
  import opened StoreService
  import opened FileIndexer

  /** Python `str(value)` for a statistic. */
  function StrOf(v: StatValue): string {
    match v
    case VInt(i) => DecimalString(i)
    case VText(s) => s
    case VNone => "None"
  }

  /** The text holds a comma, a line break or a double quote, so it must be quoted. */
  predicate NeedsQuoting(text: string) {
    ',' in text || '\n' in text || '"' in text
  }

  /** Every double quote written twice. */
  function DoubleQuotes(text: string): (r: string)
    ensures forall c :: c in r ==> c in text
  {
    if text == [] then []
    else (if text[0] == '"' then "\"\"" else [text[0]]) + DoubleQuotes(text[1..])
  }

  /** `_escape_csv_value` on the text of a value: quoted, with inner quotes doubled, when it needs quoting. */
  function EscapeCsv(text: string): (r: string)
    ensures !NeedsQuoting(text) ==> r == text
    ensures NeedsQuoting(text) ==> |r| >= 2 && r[0] == '"' && r[|r| - 1] == '"'
    ensures forall c :: c in r ==> c in text || c == '"'
  {
    if NeedsQuoting(text) then "\"" + DoubleQuotes(text) + "\"" else text
  }

  /** Every doubled double quote collapsed to one. */
  function CollapseQuotes(s: string): string {
    if |s| >= 2 && s[0] == '"' && s[1] == '"' then "\"" + CollapseQuotes(s[2..])
    else if s == [] then []
    else [s[0]] + CollapseQuotes(s[1..])
  }

  /** Reading a field back: a quoted field loses its outer quotes and has its doubled quotes collapsed. */
  function UnescapeCsv(field: string): string {
    if |field| >= 2 && field[0] == '"' && field[|field| - 1] == '"' then CollapseQuotes(field[1..|field| - 1])
    else field
  }

  lemma {:induction false} CollapseDoubled(text: string)
    ensures CollapseQuotes(DoubleQuotes(text)) == text
  {
    if text != [] {
      CollapseDoubled(text[1..]);
      var rest := DoubleQuotes(text[1..]);
      if text[0] == '"' {
        assert ("\"\"" + rest)[2..] == rest;
      } else {
        assert ([text[0]] + rest)[1..] == rest;
      }
      assert [text[0]] + text[1..] == text;
    }
  }

  /** Unescaping undoes escaping, for every text. */
  lemma EscapeRoundTrip(text: string)
    ensures UnescapeCsv(EscapeCsv(text)) == text
  {
    if NeedsQuoting(text) {
      var field := EscapeCsv(text);
      assert field[1..|field| - 1] == DoubleQuotes(text);
      CollapseDoubled(text);
    } else if |text| >= 2 {
      assert text[0] in text;
    }
  }

  // ---------------------------------------------------------------------------
  // `_to_csv`

  const CsvHeader := "metric,value"

  /** The line for one statistic. */
  function CsvLine(key: string, v: StatValue): string {
    key + "," + EscapeCsv(StrOf(v))
  }

  /** The header, then one line per statistic in dictionary order. */
  function CsvLines(stats: Dict<StatValue>): (lines: seq<string>)
    ensures |lines| == |stats| + 1 && lines[0] == CsvHeader
    ensures forall i :: 0 <= i < |stats| ==> lines[i + 1] == CsvLine(stats[i].0, stats[i].1)
  {
    if stats == [] then [CsvHeader]
    else
      var last := stats[|stats| - 1];
      CsvLines(stats[..|stats| - 1]) + [CsvLine(last.0, last.1)]
  }

  /** The CSV text: the lines joined by line breaks. */
  function CsvText(stats: Dict<StatValue>): string {
    Join(CsvLines(stats), '\n')
  }

  /** `_to_csv`: builds the lines one statistic at a time, then joins them. */
  method ToCsv(stats: Dict<StatValue>) returns (csv: string)
    ensures csv == CsvText(stats)
  {
    var lines := [CsvHeader];
    var i := 0;
    while i < |stats|
      invariant i <= |stats|
      invariant lines == CsvLines(stats[..i])
    {
      assert stats[..i + 1][..i] == stats[..i];
      lines := lines + [stats[i].0 + "," + EscapeCsv(StrOf(stats[i].1))];
      i := i + 1;
    }
    assert stats[..i] == stats;
    csv := Join(lines, '\n');
  }

  /** Reading one line back: the key up to the first comma, and the unescaped rest. */
  function ReadCsvLine(line: string): (string, string) {
    var i := FirstComma(line, 0);
    if i < |line| then (line[..i], UnescapeCsv(line[i + 1..])) else (line, [])
  }

  /** The index of the first comma at or after `from`, or the length when there is none. */
  function FirstComma(s: string, from: nat): (i: nat)
    requires from <= |s|
    ensures from <= i <= |s|
    ensures forall k :: from <= k < i ==> s[k] != ','
    ensures i < |s| ==> s[i] == ','
    decreases |s| - from
  {
    if from == |s| || s[from] == ',' then from else FirstComma(s, from + 1)
  }

  /** A key without commas is read back from its line, and so is the value's text. */
  lemma LineRoundTrip(key: string, v: StatValue)
    requires ',' !in key
    ensures ReadCsvLine(CsvLine(key, v)) == (key, StrOf(v))
  {
    var line := CsvLine(key, v);
    assert line[|key|] == ',';
    assert line[..|key|] == key;
    assert line[|key| + 1..] == EscapeCsv(StrOf(v));
    EscapeRoundTrip(StrOf(v));
  }

  /** Statistics whose keys hold no comma or line break and whose values' text holds no line break. */
  predicate PlainStats(stats: Dict<StatValue>) {
    forall i :: 0 <= i < |stats| ==> ',' !in stats[i].0 && '\n' !in stats[i].0 && '\n' !in StrOf(stats[i].1)
  }

  /** Reading a whole CSV text back: split at line breaks, drop the header, read each line. */
  function ReadCsv(text: string): seq<(string, string)> {
    var lines := SplitOn(text, {'\n'});
    seq(|lines| - 1, i requires 0 <= i < |lines| - 1 => ReadCsvLine(lines[i + 1]))
  }

  /** No line of the CSV of plain statistics holds a line break. */
  lemma PlainLines(stats: Dict<StatValue>)
    requires PlainStats(stats)
    ensures forall i, k :: 0 <= i < |CsvLines(stats)| && 0 <= k < |CsvLines(stats)[i]| ==> CsvLines(stats)[i][k] !in {'\n'}
  {
    var lines := CsvLines(stats);
    forall i, k | 0 <= i < |lines| && 0 <= k < |lines[i]| ensures lines[i][k] !in {'\n'} {
      if i > 0 {
        var key := stats[i - 1].0;
        var field := EscapeCsv(StrOf(stats[i - 1].1));
        assert lines[i] == key + "," + field;
        if k < |key| {
          assert lines[i][k] == key[k];
        } else if k > |key| {
          assert lines[i][k] == field[k - |key| - 1];
          assert field[k - |key| - 1] in field;
        }
      } else {
        assert lines[0] == CsvHeader;
      }
    }
  }

  /** For plain statistics, reading the CSV back gives every key with the text of its value, in order. */
  lemma CsvRoundTrip(stats: Dict<StatValue>)
    requires PlainStats(stats)
    ensures |ReadCsv(CsvText(stats))| == |stats|
    ensures forall i :: 0 <= i < |stats| ==> ReadCsv(CsvText(stats))[i] == (stats[i].0, StrOf(stats[i].1))
  {
    var lines := CsvLines(stats);
    PlainLines(stats);
    SplitJoin(lines, '\n', {'\n'});
    assert SplitOn(CsvText(stats), {'\n'}) == lines;
    var parsed := ReadCsv(CsvText(stats));
    assert |parsed| == |stats|;
    forall i | 0 <= i < |stats| ensures parsed[i] == (stats[i].0, StrOf(stats[i].1)) {
      assert parsed[i] == ReadCsvLine(lines[i + 1]);
      LineRoundTrip(stats[i].0, stats[i].1);
    }
  }

  // ---------------------------------------------------------------------------
  // `_render_output` and `_export_stats`

  /** What is printed: JSON, the CSV text, or the table. */
  datatype Rendered = JsonPrinted(stats: Dict<StatValue>) | CsvPrinted(text: string) | TablePrinted(stats: Dict<StatValue>)

  /** What the export file holds: JSON, or the CSV text. */
  datatype Exported = JsonFile(stats: Dict<StatValue>) | CsvFile(text: string)

  /** `_render_output`: the format, lower-cased, picks JSON, CSV, or else the table. */
  function RenderOutput(stats: Dict<StatValue>, format: string): (r: Rendered)
    ensures r.CsvPrinted? ==> r.text == CsvText(stats)
  {
    var normalized := Lower(format);
    if normalized == "json" then JsonPrinted(stats)
    else if normalized == "csv" then CsvPrinted(CsvText(stats))
    else TablePrinted(stats)
  }

  /** `_export_stats`: JSON only for the json format, CSV for every other, the table included. */
  function ExportStats(stats: Dict<StatValue>, format: string): (r: Exported)
    ensures r.CsvFile? ==> r.text == CsvText(stats)
  {
    if Lower(format) == "json" then JsonFile(stats) else CsvFile(CsvText(stats))
  }

  /** The format's case does not matter, and the export is JSON exactly when the printout is. */
  lemma FormatSelection(stats: Dict<StatValue>, format: string)
    ensures RenderOutput(stats, Lower(format)) == RenderOutput(stats, format)
    ensures ExportStats(stats, Lower(format)) == ExportStats(stats, format)
    ensures RenderOutput(stats, format).JsonPrinted? <==> ExportStats(stats, format).JsonFile?
    ensures RenderOutput(stats, format).TablePrinted? ==> ExportStats(stats, format) == CsvFile(CsvText(stats))
  {
    LowerIdempotent(format);
  }

  /** Upper-case `CSV` prints CSV, and `table` exports CSV. */
  lemma FormatExamples(stats: Dict<StatValue>)
    ensures RenderOutput(stats, "CSV") == CsvPrinted(CsvText(stats))
    ensures RenderOutput(stats, "Table") == TablePrinted(stats)
    ensures ExportStats(stats, "table") == CsvFile(CsvText(stats))
  {
    assert Lower("CSV") == "csv";
    assert Lower("Table") == "table";
    assert Lower("table") == "table";
  }

  /**
   * `stats_command`: the service's statistics are printed in the chosen
   * format and, when an export path is given, exported as well.
   */
  method Stats(service: ElasticsearchService, report: StoreReport, format: string, exportRequested: bool)
    returns (printed: Rendered, exported: Option<Exported>)
    requires service.Valid()
    modifies service
    ensures service.Valid() && service.bulkRequests == old(service.bulkRequests) && service.closedClients == old(service.closedClients)
    ensures printed == RenderOutput(StatsOf(report), format)
    ensures exported == if exportRequested then Some(ExportStats(StatsOf(report), format)) else None
  {
    var stats := service.Stats(report);
    printed := RenderOutput(stats, format);
    exported := None;
    if exportRequested {
      exported := Some(ExportStats(stats, format));
    }
  }
}
