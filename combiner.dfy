/** `combiner.py`: each CSV row names a DOI and its assigned star rating; the text file
    named after the sanitized DOI becomes one training record, and a DOI whose file is
    missing gets a warning. The folder of text files is a map from file name to content. */
module Combiner {
  import opened PyStr
  import opened Values

  /** `sanitize_doi`: every `/` and every `:` becomes `_`. */
  function SanitizeDoi(doi: string): (r: string)
    ensures |r| == |doi|
    ensures forall i :: 0 <= i < |doi| ==> r[i] == if doi[i] == '/' || doi[i] == ':' then '_' else doi[i]
    ensures '/' !in r && ':' !in r
  {
    ReplaceChar(ReplaceChar(doi, '/', '_'), ':', '_')
  }

  /** Sanitizing a sanitized DOI changes nothing. */
  lemma SanitizeIdempotent(doi: string)
    ensures SanitizeDoi(SanitizeDoi(doi)) == SanitizeDoi(doi)
  {
  }

  /** A row of the CSV: its `DOI` and `Assigned Star` cells. */
  datatype CsvRow = CsvRow(doi: Value, star: Value)

  /** One JSON line of the output. */
  datatype Record = Record(text: string, rating: string)

  /** `sanitize_doi(doi) + ".txt"`. */
  function TextFileName(doi: string): string {
    SanitizeDoi(doi) + ".txt"
  }

  /** The record a row yields: the stripped text of its file, when that file exists and
      is not blank, labelled with `str` of the star cell. */
  function RowRecord(files: map<string, string>, row: CsvRow): Option<Record> {
    if !row.doi.Str? then None
    else
      var name := TextFileName(row.doi.s);
      if name in files && Strip(files[name]) != [] then Some(Record(Strip(files[name]), Show(row.star)))
      else None
  }

  /** The DOI a row warns about: the one whose file does not exist. */
  function RowWarning(files: map<string, string>, row: CsvRow): Option<string> {
    if row.doi.Str? && TextFileName(row.doi.s) !in files then Some(row.doi.s) else None
  }

  function RecordOf(files: map<string, string>): CsvRow -> Option<Record> {
    row => RowRecord(files, row)
  }

  function WarningOf(files: map<string, string>): CsvRow -> Option<string> {
    row => RowWarning(files, row)
  }

  /** What `main` writes and warns about; `None` when a DOI cell is not a string and
      `sanitize_doi` fails on it. */
  datatype Output = Output(records: seq<Record>, missing: seq<string>)

  function Combine(rows: seq<CsvRow>, files: map<string, string>): Option<Output> {
    if forall i :: 0 <= i < |rows| ==> rows[i].doi.Str?
    then Some(Output(FilterMap(rows, RecordOf(files)), FilterMap(rows, WarningOf(files))))
    else None
  }

  /** The loop of `main`. */
  method CombineRows(rows: seq<CsvRow>, files: map<string, string>) returns (r: Option<Output>)
    ensures r == Combine(rows, files)
  {
    var records: seq<Record> := [];
    var missing: seq<string> := [];
    for i := 0 to |rows|
      invariant forall j :: 0 <= j < i ==> rows[j].doi.Str?
      invariant records == FilterMap(rows[..i], RecordOf(files))
      invariant missing == FilterMap(rows[..i], WarningOf(files))
    {
      var row := rows[i];
      if !row.doi.Str? {
        CombineNone(rows, files, i);
        return None;
      }
      records, missing := CombineRow(rows, i, files, records, missing);
    }
    assert rows[..|rows|] == rows;
    r := Some(Output(records, missing));
  }

  lemma CombineNone(rows: seq<CsvRow>, files: map<string, string>, i: nat)
    requires i < |rows| && !rows[i].doi.Str?
    ensures Combine(rows, files) == None
  {
  }

  /** One pass of the loop: the row's record or warning, if any, is appended. */
  method CombineRow(rows: seq<CsvRow>, i: nat, files: map<string, string>, records: seq<Record>, missing: seq<string>)
    returns (records': seq<Record>, missing': seq<string>)
    requires i < |rows| && rows[i].doi.Str?
    requires records == FilterMap(rows[..i], RecordOf(files)) && missing == FilterMap(rows[..i], WarningOf(files))
    ensures records' == FilterMap(rows[..i + 1], RecordOf(files)) && missing' == FilterMap(rows[..i + 1], WarningOf(files))
  {
    FilterMapSnoc(rows, i, RecordOf(files));
    FilterMapSnoc(rows, i, WarningOf(files));
    var row := rows[i];
    records', missing' := records, missing;
    var doi := row.doi.s;
    var fileName := SanitizeDoi(doi) + ".txt";
    if fileName in files {
      var text := Strip(files[fileName]);
      if text != [] {
        records' := records + [Record(text, Show(row.star))];
      }
    } else {
      missing' := missing + [doi];
    }
  }

  /** A row yields a record exactly when its file exists and is not blank, a warning
      exactly when its file is missing, never both, and nothing for a blank file. */
  lemma RowOutcome(files: map<string, string>, row: CsvRow)
    requires row.doi.Str?
    ensures var name := TextFileName(row.doi.s);
      && (RowRecord(files, row).Some? <==> name in files && Strip(files[name]) != [])
      && (RowRecord(files, row).Some? ==> RowRecord(files, row).value == Record(Strip(files[name]), Show(row.star)))
      && (RowWarning(files, row).Some? <==> name !in files)
      && !(RowRecord(files, row).Some? && RowWarning(files, row).Some?)
      && (name in files && Strip(files[name]) == [] ==> RowRecord(files, row).None? && RowWarning(files, row).None?)
  {
  }

  /** The script fails exactly on a non-string DOI; otherwise its records are those of
      the rows with a non-blank file, in row order, at most one per row. */
  lemma CombineFacts(rows: seq<CsvRow>, files: map<string, string>)
    ensures Combine(rows, files).None? <==> exists i :: 0 <= i < |rows| && !rows[i].doi.Str?
    ensures Combine(rows, files).Some? ==>
      var out := Combine(rows, files).value;
      && |out.records| <= |rows| && |out.missing| <= |rows|
      && (forall rec :: rec in out.records <==> exists row :: row in rows && RowRecord(files, row) == Some(rec))
      && (forall d :: d in out.missing <==> exists row :: row in rows && RowWarning(files, row) == Some(d))
  {
    FilterMapLength(rows, RecordOf(files));
    FilterMapLength(rows, WarningOf(files));
    FilterMapMembers(rows, RecordOf(files));
    FilterMapMembers(rows, WarningOf(files));
  }
}
