# Dataset-building scripts, modelled in Dafny

The scripts build a training set of research outputs labelled with REF star ratings:
they fetch PDFs for a list of DOIs from Sci-Hub mirrors (`pypaperbot.py`), match PDF
files back to DOIs (`doichecker.py`, `matcher.py`), assemble text files and ratings into
JSON lines (`combiner.py`), merge and deduplicate datasets (`merger.py`), clean the
article texts and normalise the ratings (`cleaner.py`), cut long documents into
overlapping token windows for a 4096-token model (`chunker.py`, `chunker2.py`), and count
the labels of a dataset (`counter.py`).

This project models the deterministic layer under the I/O of those scripts, one Dafny
module per script, plus shared modules:

- `PyStr` (pystr.dfy): the Python `str` operations the scripts use (`strip`, `lower`,
  `replace`, `split`/`join`, `in`, `str(int)`).
- `Values` (values.dfy): a JSON or CSV cell (string, integer or other) with Python's
  `str()`, and the order-preserving filter that every "loop and append" reduces to.
- `Dicts` (dicts.dfy): insertion-ordered Python dictionaries as sequences of pairs, and
  "keep the first item of each key" deduplication.
- `Windowing` (windowing.dfy): the window offsets and slices shared by both chunkers.
- `Chunker`, `ChunkerDist`, `Merger`, `Cleaner`, `Combiner`, `DoiChecker`, `Matcher`,
  `PaperBot`, `LabelCounter`: one module per script.

Each loop of a script is a `method` whose `ensures` ties its output to a specification
function of its inputs; the properties the scripts promise are lemmas about those
functions.

Everything outside the deterministic layer is a parameter:

- the tokenizer is a pair of functions, `encode` and `decode`;
- the browser is a function from (mirror, DOI) to a loaded page (a list of elements in
  document order) or a timeout;
- the HTTP client is a function from URL to a response (status and the two headers read);
- a folder is a set of file names, a map from file name to content, or a listing
  sequence;
- JSON and CSV inputs are sequences of rows.

Points where the model follows the code rather than the script's own comments:

- `chunker2.py` puts a document of zero tokens through the short-document path, so it
  yields one record and is counted in bucket 1; bucket 0 is never incremented, and the
  printed "Skipped" count is always 0.
- In the window loop it is not only the last window that can be short: a 7500-token
  document gives windows of 4096, 3916 and 332 tokens.
- `pypaperbot.py` names a DOI's PDF by turning `/` into `_`; `doichecker.py` turns every
  `_` back into `/`. A DOI that already holds `_` therefore does not round-trip.
  Two DOIs that differ only in `/` against `_` share a file name, so the later one is
  logged as SKIPPED once the earlier one was downloaded.
- `matcher.py` removes only the lower-case `.pdf` from a file name before lower-casing,
  so `X.PDF` keeps its extension in its key.

## Model

| member | source | states |
|---|---|---|
| Windowing.WindowLength | chunker.py:27 | a window holds between 1 and 4096 tokens, exactly 4096 when it does not reach the end, and otherwise is the rest of the document |
| Windowing.OffsetsAreMultiples | chunker.py:26 | the loop visits ceil(n / 3584) offsets, the k-th being k·3584: exactly the multiples of 3584 below n |
| Windowing.KeptStartsAreMultiples | chunker.py:26-29 | a multiple of 3584 starts a kept window exactly when at least 10 tokens remain from it; the kept starts are 0, 3584, 7168, … in order |
| Windowing.OnlyLastWindowDropped | chunker.py:26-29 | only the final visited window can be dropped, and it is dropped exactly when fewer than 10 tokens remain from it |
| Windowing.TokenCovered | chunker.py:26-29 | for a document of at least 10 tokens every token lies in some kept window |
| Windowing.ConsecutiveWindowsOverlap | chunker.py:26-27 | a full window and the next one share 512 tokens: the last 512 of one are the first 512 of the next |
| Windowing.NoFastPath | chunker.py:26-29 | a document of 3585..4096 tokens is visited at 0 and 3584 and keeps its tail window only with at least 10 tokens left; a document under 10 tokens keeps no window |
| Windowing.LongDocumentKeepsTwo | chunker2.py:39-42 | a document longer than 4096 tokens always keeps the windows at 0 and 3584 |
| Windowing.Windows7500 | chunker.py:26-29 | a 7500-token document keeps windows at 0, 3584 and 7168, of 4096, 3916 and 332 tokens |
| Chunker.ChunkCorpus | chunker.py:18-34 | `None` (the script stops) exactly when some document's label is not a string, since `.strip()` fails on it; otherwise the records written are those of the documents in input order, each document's in window order |
| Chunker.ChunkEntry | chunker.py:21-34 | one document appends its own windows, with its stripped label, after the records of the documents before it |
| Chunker.AppendWindows | chunker.py:26-34 | the inner loop appends exactly the records of the document's kept windows |
| Chunker.DocRecordsAreKeptWindows | chunker.py:26-34 | a document yields one record per kept window, in order; record j holds the decoded slice at the j-th kept offset, of 10 to 4096 tokens, and the stripped label |
| Chunker.CorpusRecordsAppend | chunker.py:20-34 | the records of two concatenated corpora are those of the first followed by those of the second |
| Chunker.CorpusLabels | chunker.py:20-34 | every record carries the stripped label of some input document |
| ChunkerDist.Bump | chunker2.py:47-50 | `chunk_dist[c] += 1` adds one to bucket c, adds c to the keys and leaves every other bucket as it was |
| ChunkerDist.ChunkCorpusWithDist | chunker2.py:20-50 | the records and the histogram are those of the documents in input order |
| ChunkerDist.ChunkDocument | chunker2.py:23-50 | one document appends its records and counts itself once, in the bucket of its record count |
| ChunkerDist.AppendWindowsCounted | chunker2.py:38-45 | the long-document loop appends the kept windows' records, and `count` is their number |
| ChunkerDist.DocRecordCount | chunker2.py:30-45 | a document of at most 4096 tokens yields exactly one record, the whole decoded document, even below 10 tokens; a longer one yields at least two; all carry the label |
| ChunkerDist.EmptyDocument | chunker2.py:31-35 | an empty document yields nothing in `chunker.py` but one record in `chunker2.py` |
| ChunkerDist.BucketsZeroAndOne | chunker2.py:31-50 | bucket 0 is never incremented and bucket 1 counts exactly the documents of at most 4096 tokens |
| ChunkerDist.HistogramDocs | chunker2.py:60 | the bucket values sum to the number of documents |
| ChunkerDist.HistogramRecords | chunker2.py:44-58 | the sum over buckets of c·dist[c] equals the number of records written |
| ChunkerDist.SummaryBalanced | chunker2.py:60-63 | total_docs = single_chunk + multi_chunk + skipped for any histogram |
| ChunkerDist.RunSummary | chunker2.py:60-63 | after a run, total_docs is the number of documents, single_chunk the short ones, multi_chunk the long ones, and skipped is 0 |
| Merger.Merge | merger.py:16-25 | `None` exactly when some item lacks `text` or `label`; otherwise the data deduplicated on the (text, label) key |
| Merger.KeepFirst | merger.py:22-25 | one pass keeps an item exactly when its key is new, and keeps `seen` equal to the keys of `deduplicated` |
| Merger.MergedDistinct | merger.py:19-25 | no two kept items share a key |
| Merger.MergedKeys | merger.py:16-25 | the kept keys are exactly the keys of `old_data + new_data` |
| Merger.MergedFirstOccurrences | merger.py:16-24 | the kept items sit at strictly increasing positions of `old_data + new_data`, each the first item with its key |
| Merger.MergedLength | merger.py:16-25 | at most len(old) + len(new) items are kept, all of them exactly when no key repeats |
| Merger.MergeIdempotent | merger.py:19-25 | deduplicating the merged data again changes nothing |
| Dicts.PutKeys | matcher.py:7 | assigning a key keeps the key order and appends the key only when it is new |
| Dicts.PutGet | matcher.py:7 | after `d[k] = v`, k maps to v and every other key to its old value |
| Dicts.DedupLength | merger.py:19-25 | deduplication drops something exactly when a key repeats or was already seen |
| Cleaner.Search | cleaner.py:15 | the search result is the least position where a whole-word, case-insensitive keyword starts, and `None` exactly when there is none |
| Cleaner.CutStartFacts | cleaner.py:15-17 | with a start keyword present, the text is cut to begin at its first occurrence, which then starts the text; otherwise the text is kept |
| Cleaner.CutEndFacts | cleaner.py:20-22 | the text is cut just before the first end keyword, and no end keyword survives |
| Cleaner.CleanLines | cleaner.py:25-30 | the line loop keeps the stripped non-noise lines in order |
| Cleaner.KeptLinesClean | cleaner.py:25-30 | no kept line is noise, none has outer whitespace, none holds a newline, and there are no more of them than input lines |
| Cleaner.KeptLinesAppend | cleaner.py:27-30 | lines are kept in input order |
| Cleaner.Squeeze | cleaner.py:34-35 | collapsing runs leaves no two consecutive copies of the character, keeps the first character, and never lengthens the text |
| Cleaner.SqueezeSnoc | cleaner.py:34-35 | extending the text by one character extends the collapsed text by it, unless it repeats the character that ended the text |
| Cleaner.SqueezeIsDropRepeats | cleaner.py:34-35 | collapsing equals removing exactly the positions `i > 0` with `s[i-1] == s[i] ==` the character, so each run keeps exactly one copy and everything else is kept in order |
| Cleaner.SqueezeKeepsOthers | cleaner.py:34-35 | collapsing runs only removes copies of that character: the other characters stay, in order |
| Cleaner.SqueezeNoDouble | cleaner.py:34-35 | a text is unchanged by collapsing exactly when it has no run, so collapsing is idempotent |
| Cleaner.SqueezeKeepsNoDouble | cleaner.py:34-35 | collapsing spaces creates no blank line |
| Cleaner.Clean | cleaner.py:10-37 | the method computes `clean_text` |
| Cleaner.CleanTextShape | cleaner.py:10-37 | a non-string cleans to ""; a cleaned text has no double newline, no double space and no outer whitespace |
| Cleaner.LabelMap | cleaner.py:46-47 | a label maps to a number exactly when it is `'1*'`..`'4*'`, and then to its digit |
| Cleaner.CleanRowFacts | cleaner.py:40-53 | a row survives exactly when its cleaned text exceeds 500 characters and its label maps; the record is that cleaned text and a rating from 1 to 4 |
| Cleaner.CleanRowsMembers | cleaner.py:40-53 | the output records are exactly those of the surviving rows, in row order |
| Combiner.SanitizeDoi | combiner.py:24-25 | every `/` and `:` becomes `_`, nothing else changes, the length is kept, and neither character remains |
| Combiner.SanitizeIdempotent | combiner.py:24-25 | sanitizing twice is sanitizing once |
| Combiner.CombineRows | combiner.py:27-46 | the loop yields the records and the missing-file warnings of the rows in order, or `None` on a non-string DOI |
| Combiner.CombineRow | combiner.py:31-46 | one row appends its record or its warning, if any |
| Combiner.CombineNone | combiner.py:32-34 | a non-string DOI makes the whole run fail |
| Combiner.RowOutcome | combiner.py:34-46 | a record exactly when the file exists and is not blank, holding the stripped text and `str` of the star; a warning exactly when the file is missing; never both; nothing for a blank file |
| Combiner.CombineFacts | combiner.py:27-46 | the run fails exactly on a non-string DOI; otherwise there are at most as many records and warnings as rows, and they are exactly those the rows give |
| DoiChecker.LastIndexOf | doichecker.py:18 | the result is the last position of the character, `None` exactly when it does not occur |
| DoiChecker.CheckPdfs | doichecker.py:12-21 | the loop emits the matches of the listing against the stripped DOI set |
| DoiChecker.MatchedFacts | doichecker.py:15-21 | a file is matched exactly when it ends in `.pdf` in any case and its candidate DOI is listed; the match pairs that DOI with the unchanged name; at most one per file, in listing order |
| DoiChecker.RoundTrip | doichecker.py:17-19 | the downloader's file name for a DOI is always considered and leads back to the DOI exactly when the DOI holds no `_` and is not all dots |
| Matcher.NormKey | matcher.py:7 | a DOI key has the DOI's length, no `/` and no capital letter |
| Matcher.NormKeyChars | matcher.py:7 | a DOI key is the DOI with each `/` replaced by `_` and then lower-cased, position by position |
| Matcher.AllStrings | matcher.py:6-7 | the DOI list converts exactly when every DOI is a string, each to itself |
| Matcher.NormalizedKeys | matcher.py:7 | the dictionary has each DOI's key exactly once and no other key |
| Matcher.NormalizedValues | matcher.py:7 | each key maps to the last DOI of the list with that key |
| Matcher.FileKeyOfStem | matcher.py:15 | a file named `stem + ".pdf"`, where `stem` contains no `.pdf`, has the lower-cased stem as its key: `replace` removes exactly the extension |
| PyStr.RemoveAllTrailing | matcher.py:15 | `(s + p).replace(p, "")` is `s` when `s` does not contain `p` and `p`'s first character does not recur in `p` |
| Matcher.FileKeyUpperExtension | matcher.py:15 | `X.PDF` has the key `x.pdf` |
| Matcher.FirstHit | matcher.py:17-21 | the hit is the first dictionary entry whose key occurs in the file key, `None` exactly when there is none |
| Matcher.FindFirst | matcher.py:17-21 | the inner loop stops at that first hit |
| Matcher.MatchPdfs | matcher.py:4-23 | the script's outcome, or `None` when a DOI is not a string |
| Matcher.Classify | matcher.py:13-23 | the outer loop lists the matched and the unmatched files in listing order |
| Matcher.FileOutcome | matcher.py:14-23 | a non-PDF name is in neither list; a PDF is matched or unmatched, never both; unmatched exactly when no key occurs in its key; matched to the first entry whose key occurs |
| Matcher.Partition | matcher.py:13-23 | the two lists together hold exactly as many entries as there are PDF names |
| PaperBot.FindFirst | pypaperbot.py:40 | the result is the index of the first element satisfying the test, `None` exactly when none does |
| PaperBot.SourcePriority | pypaperbot.py:37-61 | the source is the first non-empty one of iframe `src`, embed `src` and object `data`, else the first `.pdf` link; a URL is extracted exactly when a source exists and the page loaded |
| PaperBot.MirrorStripped | pypaperbot.py:11-17 | every listed mirror, stripped of trailing `/`, starts with `https:` |
| PaperBot.NormalizeUrlEnds | pypaperbot.py:63-71 | the extracted URL is never empty and ends with the stripped source |
| PaperBot.NormalizeUrlAbsolute | pypaperbot.py:63-71 | on a listed mirror the extracted URL starts with `http` |
| PaperBot.ParseIntRoundTrip | pypaperbot.py:80 | `int(str(n)) == n` |
| PaperBot.AcceptFacts | pypaperbot.py:75-91 | a download is accepted exactly when the status is 200, the type names `application/pdf`, and the length is present, parses and exceeds 10000 |
| PaperBot.DoiLinesFacts | pypaperbot.py:94-95 | the DOIs are exactly the stripped non-blank lines, none with outer whitespace |
| PaperBot.FirstSomeFacts | pypaperbot.py:111-121 | the mirror chosen is the first success, and none is chosen exactly when every attempt failed |
| PaperBot.TryMirrors | pypaperbot.py:110-127 | the mirror loop stops at the first mirror that succeeds |
| PaperBot.ProcessDoi | pypaperbot.py:100-132 | one DOI yields its log row, and its file is added once downloaded |
| PaperBot.Run | pypaperbot.py:94-132 | the log has one row per DOI line, and the folder gains the files of the downloaded rows |
| PaperBot.DoiRowBasics | pypaperbot.py:102-108 | a row names its DOI, is SKIPPED exactly when its file exists, and only a download adds a file |
| PaperBot.DoiRowFacts | pypaperbot.py:110-130 | FAILED exactly when the file is missing and no mirror succeeds; DOWNLOADED from the first succeeding mirror, with its accepted, non-empty link |
| PaperBot.BotRows | pypaperbot.py:100-132 | row i is the i-th DOI's row against the starting folder plus the files of the earlier downloads |
| PaperBot.SkippedExactly | pypaperbot.py:102-108 | a DOI is skipped exactly when its file was there at the start or an earlier DOI with the same file name was downloaded |
| LabelCounter.Labels | counter.py:19 | the labels are read exactly when every record has one, one per record in order |
| LabelCounter.TallyCounts | counter.py:20 | each label's count is its number of occurrences; the keys are distinct, in order of first appearance |
| LabelCounter.TallyKeys | counter.py:19-20 | the keys are exactly the labels present and every count is at least 1 |
| LabelCounter.TallyTotal | counter.py:17-20 | the counts sum to the number of records read |

## Left out

- I/O is not modelled: reading and writing JSON, JSON lines, CSV and zip files, `os.listdir`, `os.path.exists`, `os.makedirs`, printing, `time.sleep`, and the matplotlib plot of `chunker2.py`. Inputs and outputs are sequences, sets and maps.
- The tokenizer is not modelled; `encode` and `decode` are uninterpreted function parameters, and the tensor wrapper is dropped.
- The browser, BeautifulSoup parsing, `requests` and `quote_plus` are not modelled: a page is a list of (tag, attributes) elements and a download is its status and two headers. The URL built on line 32 is folded into the browse parameter.
- PaperBot.Run: a browser error other than a time-out (a `WebDriverException` from `driver.get`, pypaperbot.py:72) is not caught by the script and ends it before the log is written (lines 136-140); the model's page loads are only loaded or timed out, so it always writes a full log.
- Merger.Merge: keys compare as Dafny values; Python's equality of `4`, `4.0` and `True` inside the (text, label) tuple, and the `TypeError` raised on an unhashable (list or dict) label, are not modelled.
- PaperBot.Run: a download that raises after the output file was opened (mid-stream) is treated like any other rejected download; the partial file it leaves is not modelled.
- PaperBot.Accept: `int()` of a header with `_` digit separators or non-ASCII digits is not modelled; such headers count as unparsable.
- PyStr.Lower: case mapping is ASCII only; `str.lower()` also maps other letters.
- Cleaner.Search: `\w` and `re.IGNORECASE` are taken over ASCII only.
- Cleaner.CleanRows: pandas' handling of missing or non-string `text` cells beyond "a non-string cleans to the empty string" is not modelled, nor the numeric dtype of the mapped label column.
- ChunkerDist.RunSummary: the reads of `chunk_dist[1]` and `chunk_dist[0]` in the summary also insert those keys into the defaultdict; this only affects the printed table and is not modelled.
- LabelCounter.TallyCounts: labels are compared as JSON values; Python's equality of `1`, `1.0` and `True` as dictionary keys is not modelled.
- `LoopGod.py` and `text_extractor.py` are not part of this model (network lookups, PDF text extraction and file cleanup).
