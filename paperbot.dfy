/** `pypaperbot.py`: for each DOI of a text file, the Sci-Hub mirrors are tried in a
    fixed order until one page yields a PDF link whose download is accepted; every DOI
    gets one row of the CSV log. The browser and the HTTP client are functions passed
    in: a page is the list of its elements in document order, and a download is
    summarised by its status and the two headers the script reads. */
module PaperBot {
  import opened PyStr
  import opened Values
  import DoiChecker

  const Mirrors: seq<string> := [
    "https://sci-hub.in",
    "https://sci-hub.se",
    "https://sci-hub.ru",
    "https://sci-hub.st",
    "https://sci-hub.hkvisa.net"
  ]

  /** `PDF_MIN_SIZE`, in bytes. */
  const PdfMinSize: int := 10000

  /** An HTML element: its tag name and its attributes. */
  datatype Element = Element(tag: string, attrs: map<string, string>)

  type Page = seq<Element>

  /** `driver.get` either loads the page or raises `TimeoutException`. */
  datatype PageLoad = Loaded(page: Page) | TimedOut

  /** The index of the first element satisfying `p`, like `soup.find`. */
  function FindFirst(page: Page, p: Element -> bool): (r: Option<nat>)
    ensures r.Some? ==> r.value < |page| && p(page[r.value]) && forall i :: 0 <= i < r.value ==> !p(page[i])
    ensures r.None? ==> forall i :: 0 <= i < |page| ==> !p(page[i])
  {
    if page == [] then None
    else if p(page[0]) then Some(0)
    else match FindFirst(page[1..], p)
      case Some(i) => Some(i + 1)
      case None => None
  }

  function HasTag(tag: string): Element -> bool {
    (e: Element) => e.tag == tag
  }

  /** The `a` elements `href=lambda x: x and x.endswith(".pdf")` accepts. */
  predicate IsPdfLink(e: Element) {
    e.tag == "a" && "href" in e.attrs && e.attrs["href"] != [] && EndsWith(e.attrs["href"], ".pdf")
  }

  /** `src` after `tag = soup.find(tag); if tag and attr in tag.attrs: src = tag[attr]`,
      when `src` was falsy before. */
  function AttrOfFirst(page: Page, tag: string, attr: string): Option<string> {
    match FindFirst(page, HasTag(tag))
    case Some(i) => if attr in page[i].attrs then Some(page[i].attrs[attr]) else None
    case None => None
  }

  /** `not src`: `None` and the empty string are both falsy. */
  predicate Falsy(src: Option<string>) {
    src.None? || src.value == []
  }

  /** Lines 37-58: the source the page offers, in priority order. */
  function ChooseSource(page: Page): Option<string> {
    var s1 := AttrOfFirst(page, "iframe", "src");
    var s2 := if Falsy(s1) then AttrOfFirst(page, "embed", "src") else s1;
    var s3 := if Falsy(s2) then AttrOfFirst(page, "object", "data") else s2;
    if !Falsy(s3) then s3
    else match FindFirst(page, IsPdfLink)
      case Some(i) => Some(page[i].attrs["href"])
      case None => None
  }

  /** Lines 63-71: the source as an absolute URL on the mirror. */
  function NormalizeUrl(rawSrc: string, mirror: string): string {
    var src := Strip(rawSrc);
    if StartsWith(src, "//") then "https:" + src
    else if StartsWith(src, "/") then StripRightChar(mirror, '/') + src
    else if StartsWith(src, "http") then src
    else StripRightChar(mirror, '/') + "/" + src
  }

  /** `extract_pdf_url`, once the page is loaded. */
  function ExtractPdfUrl(load: PageLoad, mirror: string): Option<string> {
    match load
    case TimedOut => None
    case Loaded(page) =>
      var src := ChooseSource(page);
      if Falsy(src) then None else Some(NormalizeUrl(src.value, mirror))
  }

  /** The chosen source is the first non-empty one among the first `iframe`'s `src`, the
      first `embed`'s `src` and the first `object`'s `data`; failing those, the `href`
      of the first `a` whose non-empty `href` ends in `.pdf`. A URL is extracted
      exactly when such a source exists and the page loaded. */
  lemma SourcePriority(page: Page, mirror: string)
    ensures !Falsy(AttrOfFirst(page, "iframe", "src")) ==> ChooseSource(page) == AttrOfFirst(page, "iframe", "src")
    ensures Falsy(AttrOfFirst(page, "iframe", "src")) && !Falsy(AttrOfFirst(page, "embed", "src")) ==>
      ChooseSource(page) == AttrOfFirst(page, "embed", "src")
    ensures (Falsy(AttrOfFirst(page, "iframe", "src")) && Falsy(AttrOfFirst(page, "embed", "src"))
      && !Falsy(AttrOfFirst(page, "object", "data"))) ==> ChooseSource(page) == AttrOfFirst(page, "object", "data")
    ensures (Falsy(AttrOfFirst(page, "iframe", "src")) && Falsy(AttrOfFirst(page, "embed", "src"))
      && Falsy(AttrOfFirst(page, "object", "data"))) ==>
      (ChooseSource(page).Some? <==> exists i :: 0 <= i < |page| && IsPdfLink(page[i]))
    ensures ChooseSource(page).Some? ==> ChooseSource(page).value != []
    ensures ExtractPdfUrl(Loaded(page), mirror).Some? <==> ChooseSource(page).Some?
    ensures ExtractPdfUrl(TimedOut, mirror).None?
  {
    if Falsy(AttrOfFirst(page, "iframe", "src")) && Falsy(AttrOfFirst(page, "embed", "src"))
      && Falsy(AttrOfFirst(page, "object", "data"))
    {
      match FindFirst(page, IsPdfLink)
      case Some(i) =>
      case None =>
    }
  }

  /** `s.rstrip("/")` of a mirror: it still starts with `https://x` for a mirror of the list. */
  lemma MirrorStripped(mirror: string)
    requires mirror in Mirrors
    ensures StartsWith(StripRightChar(mirror, '/'), "https:") && StartsWith(StripRightChar(mirror, '/'), "http")
  {
    var i :| 0 <= i < |Mirrors| && Mirrors[i] == mirror;
    assert mirror[..6] == "https:" && mirror[|mirror| - 1] != '/' by {
      if i == 0 {} else if i == 1 {} else if i == 2 {} else if i == 3 {} else {}
    }
    assert StripRightChar(mirror, '/') == mirror;
    assert mirror[..6][..4] == "http";
  }

  /** The extracted URL is never empty and ends with the stripped source. */
  lemma NormalizeUrlEnds(rawSrc: string, mirror: string)
    ensures EndsWith(NormalizeUrl(rawSrc, mirror), Strip(rawSrc))
    ensures NormalizeUrl(rawSrc, mirror) != []
  {
    var src := Strip(rawSrc);
    var base := StripRightChar(mirror, '/');
    if StartsWith(src, "//") {
      EndsWithConcat("https:", src);
    } else if StartsWith(src, "/") {
      EndsWithConcat(base, src);
    } else if StartsWith(src, "http") {
      EndsWithConcat([], src);
      assert [] + src == src;
    } else {
      EndsWithConcat(base + "/", src);
    }
  }

  /** On a mirror of the list, the extracted URL is absolute: it starts with `http`. */
  lemma NormalizeUrlAbsolute(rawSrc: string, mirror: string)
    requires mirror in Mirrors
    ensures StartsWith(NormalizeUrl(rawSrc, mirror), "http")
  {
    var src := Strip(rawSrc);
    var base := StripRightChar(mirror, '/');
    MirrorStripped(mirror);
    if StartsWith(src, "//") {
      StartsWithConcat("https:", src, "http");
    } else if StartsWith(src, "/") {
      StartsWithConcat(base, src, "http");
    } else if !StartsWith(src, "http") {
      StartsWithConcat(base, "/", "http");
      StartsWithConcat(base + "/", src, "http");
    }
  }

  predicate AllDigits(s: string) {
    forall i :: 0 <= i < |s| ==> '0' <= s[i] <= '9'
  }

  /** The number a string of decimal digits denotes. */
  function DigitsValue(s: string): nat
    requires AllDigits(s)
  {
    if s == [] then 0 else 10 * DigitsValue(s[..|s| - 1]) + (s[|s| - 1] as int - '0' as int)
  }

  /** `int(s)` for a header value: surrounding whitespace, an optional sign and at least
      one ASCII digit; `None` where `int` raises `ValueError`. */
  function ParseInt(raw: string): Option<int> {
    ParseSigned(Strip(raw))
  }

  /** `int` on an already stripped string. */
  function ParseSigned(s: string): Option<int> {
    if |s| > 1 && (s[0] == '-' || s[0] == '+') && AllDigits(s[1..]) then
      var v: int := DigitsValue(s[1..]);
      Some(if s[0] == '-' then -v else v)
    else if s != [] && AllDigits(s) then Some(DigitsValue(s))
    else None
  }

  lemma StripUnchanged(s: string)
    requires s != [] && !IsSpace(s[0]) && !IsSpace(s[|s| - 1])
    ensures Strip(s) == s
  {
  }

  lemma DigitCharValue(d: nat)
    requires d < 10
    ensures DigitChar(d) as int - '0' as int == d
  {
  }

  lemma {:induction false} DigitsRoundTrip(n: nat)
    ensures AllDigits(Digits(n)) && DigitsValue(Digits(n)) == n
  {
    if n >= 10 {
      DigitsRoundTrip(n / 10);
      DigitCharValue(n % 10);
      var ds := Digits(n);
      assert ds[..|ds| - 1] == Digits(n / 10);
    } else {
      DigitCharValue(n);
    }
  }

  /** `int(str(n)) == n`: a length written by `str` is read back. */
  lemma ParseIntRoundTrip(n: int)
    ensures ParseInt(IntToString(n)) == Some(n)
  {
    IntToStringStripped(n);
    SignedRoundTrip(n);
  }

  lemma SignedRoundTrip(n: int)
    ensures ParseSigned(IntToString(n)) == Some(n)
  {
    if n < 0 {
      ParseNegative(n);
    } else {
      ParseNonNegative(n);
    }
  }

  lemma IntToStringStripped(n: int)
    ensures Strip(IntToString(n)) == IntToString(n)
  {
    var s := IntToString(n);
    var d := Digits(if n < 0 then -n else n);
    assert s[|s| - 1] == d[|d| - 1];
    NotSpace(s[0]);
    NotSpace(s[|s| - 1]);
    StripUnchanged(s);
  }

  lemma NotSpace(c: char)
    requires '0' <= c <= '9' || c == '-'
    ensures !IsSpace(c)
  {
  }

  lemma ParseNegative(n: int)
    requires n < 0
    ensures ParseSigned(IntToString(n)) == Some(n)
  {
    var m: nat := -n;
    var s, ds := IntToString(n), Digits(m);
    DigitsRoundTrip(m);
    assert s == "-" + ds;
    assert s[1..] == ds && s[0] == '-' && |s| > 1;
  }

  lemma ParseNonNegative(n: int)
    requires n >= 0
    ensures ParseSigned(IntToString(n)) == Some(n)
  {
    DigitsRoundTrip(n);
    var s := IntToString(n);
    assert s == Digits(n);
    assert s[0] != '-' && s[0] != '+';
  }

  /** What a `requests.get` returns: a failure (any exception), or the status code and
      the `Content-Type` and `Content-Length` headers, each possibly absent. */
  datatype Response = RequestFailed | Response(status: int, contentType: Option<string>, contentLength: Option<string>)

  /** `download_pdf`'s verdict on a response (line 82), `False` on an exception. */
  predicate Accept(r: Response) {
    match r
    case RequestFailed => false
    case Response(status, contentType, contentLength) =>
      var ct := match contentType case Some(t) => t case None => "";
      var len := match contentLength case Some(l) => ParseInt(l) case None => Some(0);
      len.Some? && status == 200 && Contains(ct, "application/pdf") && len.value > PdfMinSize
  }

  /** A download is accepted exactly when the status is 200, the content type is present
      and names `application/pdf`, and the length is present, parses and exceeds
      `PdfMinSize`; a length written as a number is read as that number. */
  lemma AcceptFacts(r: Response, n: int, ct: string)
    ensures Accept(r) <==> && r.Response? && r.status == 200
                           && r.contentType.Some? && Contains(r.contentType.value, "application/pdf")
                           && r.contentLength.Some? && ParseInt(r.contentLength.value).Some?
                           && ParseInt(r.contentLength.value).value > PdfMinSize
    ensures Accept(Response(200, Some(ct), Some(IntToString(n)))) <==> Contains(ct, "application/pdf") && n > PdfMinSize
  {
    ParseIntRoundTrip(n);
    assert !Contains("", "application/pdf");
  }

  /** `line.strip()` for a non-blank line. */
  function DoiOfLine(line: string): Option<string> {
    if Strip(line) != [] then Some(Strip(line)) else None
  }

  /** `[line.strip() for line in f if line.strip()]`. */
  function DoiLines(lines: seq<string>): seq<string> {
    FilterMap(lines, DoiOfLine)
  }

  lemma DoiLinesFacts(lines: seq<string>)
    ensures forall d :: d in DoiLines(lines) <==> exists l :: l in lines && Strip(l) == d && d != []
    ensures forall d :: d in DoiLines(lines) ==> !IsSpace(d[0]) && !IsSpace(d[|d| - 1])
  {
    FilterMapMembers(lines, DoiOfLine);
  }

  /** The PDF link a mirror gives for a DOI, if its download is accepted. */
  function TryMirror(doi: string, mirror: string, browse: (string, string) -> PageLoad, download: string -> Response): Option<string> {
    var url := ExtractPdfUrl(browse(mirror, doi), mirror);
    if url.Some? && url.value != [] && Accept(download(url.value)) then url else None
  }

  /** The outcome of trying each mirror, in list order. */
  function Attempts(doi: string, browse: (string, string) -> PageLoad, download: string -> Response): (r: seq<Option<string>>)
    ensures |r| == |Mirrors|
  {
    seq(|Mirrors|, j requires 0 <= j < |Mirrors| => TryMirror(doi, Mirrors[j], browse, download))
  }

  /** The index of the first success from `k` on. */
  function FirstSome<T>(s: seq<Option<T>>, k: nat): Option<nat>
    decreases |s| - k
  {
    if k >= |s| then None
    else if s[k].Some? then Some(k)
    else FirstSome(s, k + 1)
  }

  /** The index found is that of the first success from `k` on; none is found exactly
      when everything from `k` on failed. */
  lemma {:induction false} FirstSomeFacts<T>(s: seq<Option<T>>, k: nat)
    ensures var r := FirstSome(s, k);
      && (r.Some? ==> k <= r.value < |s| && s[r.value].Some? && forall j :: k <= j < r.value ==> s[j].None?)
      && (r.None? ==> forall j :: k <= j < |s| ==> s[j].None?)
    decreases |s| - k
  {
    if k < |s| && s[k].None? {
      FirstSomeFacts(s, k + 1);
    }
  }

  /** The first mirror that succeeds. */
  function FirstMirror(doi: string, browse: (string, string) -> PageLoad, download: string -> Response): Option<nat> {
    FirstSome(Attempts(doi, browse, download), 0)
  }

  /** The inner loop over `MIRRORS`, stopping at the first success. */
  method TryMirrors(doi: string, browse: (string, string) -> PageLoad, download: string -> Response)
    returns (hit: Option<nat>)
    ensures hit == FirstMirror(doi, browse, download)
  {
    ghost var attempts := Attempts(doi, browse, download);
    hit := None;
    for k := 0 to |Mirrors|
      invariant FirstSome(attempts, 0) == FirstSome(attempts, k)
    {
      var mirror := Mirrors[k];
      var pdfUrl := ExtractPdfUrl(browse(mirror, doi), mirror);
      assert attempts[k] == TryMirror(doi, mirror, browse, download);
      if pdfUrl.Some? && pdfUrl.value != [] {
        if Accept(download(pdfUrl.value)) {
          hit := Some(k);
          break;
        }
      }
    }
  }

  /** The three outcomes the log records for a DOI. */
  datatype Status = Skipped | Downloaded | Failed

  /** The text written in the log's `Status` column. */
  function StatusText(s: Status): string {
    match s
    case Skipped => "SKIPPED"
    case Downloaded => "DOWNLOADED"
    case Failed => "FAILED"
  }

  /** One row of the CSV log: DOI, status, mirror and PDF URL. */
  datatype LogRow = LogRow(doi: string, status: Status, mirror: string, url: string)

  /** The row of one DOI, given the files already in the output folder. */
  function DoiRow(doi: string, existing: set<string>, browse: (string, string) -> PageLoad, download: string -> Response): LogRow {
    if DoiChecker.PdfName(doi) in existing then LogRow(doi, Skipped, "Already downloaded", "")
    else match FirstMirror(doi, browse, download)
      case Some(k) =>
        FirstSomeFacts(Attempts(doi, browse, download), 0);
        LogRow(doi, Downloaded, Mirrors[k], Attempts(doi, browse, download)[k].value)
      case None => LogRow(doi, Failed, "None", "N/A")
  }

  /** The folder after one DOI: its PDF is there once downloaded. */
  function After(doi: string, existing: set<string>, browse: (string, string) -> PageLoad, download: string -> Response): set<string> {
    if DoiRow(doi, existing, browse, download).status == Downloaded then existing + {DoiChecker.PdfName(doi)} else existing
  }

  /** The log rows of the DOIs from the given folder state on. */
  function BotFrom(dois: seq<string>, existing: set<string>, browse: (string, string) -> PageLoad, download: string -> Response): seq<LogRow> {
    if dois == [] then []
    else [DoiRow(dois[0], existing, browse, download)] + BotFrom(dois[1..], After(dois[0], existing, browse, download), browse, download)
  }

  /** The file names of the downloaded rows. */
  function DownloadedFiles(rows: seq<LogRow>): set<string> {
    set r | r in rows && r.status == Downloaded :: DoiChecker.PdfName(r.doi)
  }

  lemma BotFromStep(dois: seq<string>, i: nat, existing: set<string>, browse: (string, string) -> PageLoad, download: string -> Response)
    requires i < |dois|
    ensures BotFrom(dois[i..], existing, browse, download)
      == [DoiRow(dois[i], existing, browse, download)] + BotFrom(dois[i + 1..], After(dois[i], existing, browse, download), browse, download)
  {
    assert dois[i..][1..] == dois[i + 1..];
  }

  lemma DownloadedOne(row: LogRow)
    ensures DownloadedFiles([row]) == if row.status == Downloaded then {DoiChecker.PdfName(row.doi)} else {}
  {
  }

  lemma DownloadedAppend(a: seq<LogRow>, b: seq<LogRow>)
    ensures DownloadedFiles(a + b) == DownloadedFiles(a) + DownloadedFiles(b)
  {
  }

  /** The folder before the `i`-th DOI is processed. */
  function StateAt(dois: seq<string>, existing: set<string>, browse: (string, string) -> PageLoad, download: string -> Response, i: nat): set<string>
    requires i <= |dois|
    decreases i
  {
    if i == 0 then existing
    else StateAt(dois[1..], After(dois[0], existing, browse, download), browse, download, i - 1)
  }

  /** A row names its DOI; the DOI is skipped exactly when its file is already there,
      and only a download adds a file. */
  lemma DoiRowBasics(doi: string, existing: set<string>, browse: (string, string) -> PageLoad, download: string -> Response)
    ensures var r := DoiRow(doi, existing, browse, download);
      && r.doi == doi
      && (r.status == Skipped <==> DoiChecker.PdfName(doi) in existing)
      && After(doi, existing, browse, download) == existing + (if r.status == Downloaded then {DoiChecker.PdfName(doi)} else {})
  {
  }

  /** What the mirrors decide: a DOI whose file is missing fails exactly when no mirror
      succeeds, and is otherwise downloaded from the first mirror whose page gives a
      link whose download is accepted, with that link in the row. */
  lemma DoiRowFacts(doi: string, existing: set<string>, browse: (string, string) -> PageLoad, download: string -> Response)
    ensures var r := DoiRow(doi, existing, browse, download);
      r.status == Failed <==> DoiChecker.PdfName(doi) !in existing
                              && forall j :: 0 <= j < |Mirrors| ==> TryMirror(doi, Mirrors[j], browse, download).None?
    ensures var r := DoiRow(doi, existing, browse, download);
      r.status == Downloaded ==>
        exists k :: 0 <= k < |Mirrors|
          && (forall j :: 0 <= j < k ==> TryMirror(doi, Mirrors[j], browse, download).None?)
          && r.mirror == Mirrors[k]
          && ExtractPdfUrl(browse(Mirrors[k], doi), Mirrors[k]) == Some(r.url)
          && r.url != [] && Accept(download(r.url))
  {
    var hit := FirstMirror(doi, browse, download);
    var attempts := Attempts(doi, browse, download);
    FirstSomeFacts(attempts, 0);
    if DoiChecker.PdfName(doi) !in existing && hit.None? {
      forall j | 0 <= j < |Mirrors| ensures TryMirror(doi, Mirrors[j], browse, download).None? {
        assert attempts[j] == TryMirror(doi, Mirrors[j], browse, download);
      }
    }
    if DoiChecker.PdfName(doi) !in existing && hit.Some? {
      var k := hit.value;
      assert attempts[k] == TryMirror(doi, Mirrors[k], browse, download);
      forall j | 0 <= j < k ensures TryMirror(doi, Mirrors[j], browse, download).None? {
        assert attempts[j] == TryMirror(doi, Mirrors[j], browse, download);
      }
    }
  }

  /** Row `i` of the log is the row of the `i`-th DOI against the folder as the earlier
      DOIs left it, which is the starting folder plus the files of the earlier
      downloads. */
  lemma {:induction false} BotRows(dois: seq<string>, existing: set<string>, browse: (string, string) -> PageLoad, download: string -> Response)
    ensures |BotFrom(dois, existing, browse, download)| == |dois|
    ensures forall i :: 0 <= i < |dois| ==>
      BotFrom(dois, existing, browse, download)[i] == DoiRow(dois[i], StateAt(dois, existing, browse, download, i), browse, download)
    ensures forall i :: 0 <= i <= |dois| ==>
      StateAt(dois, existing, browse, download, i) == existing + DownloadedFiles(BotFrom(dois, existing, browse, download)[..i])
    decreases |dois|
  {
    if dois != [] {
      var existing' := After(dois[0], existing, browse, download);
      BotRows(dois[1..], existing', browse, download);
      var rows, rest := BotFrom(dois, existing, browse, download), BotFrom(dois[1..], existing', browse, download);
      forall i | 0 < i < |dois|
        ensures rows[i] == DoiRow(dois[i], StateAt(dois, existing, browse, download, i), browse, download)
      {
        assert rows[i] == rest[i - 1];
        assert dois[i] == dois[1..][i - 1];
      }
      DoiRowBasics(dois[0], existing, browse, download);
      DownloadedOne(rows[0]);
      forall i | 0 < i <= |dois|
        ensures StateAt(dois, existing, browse, download, i) == existing + DownloadedFiles(rows[..i])
      {
        assert rows[..i] == [rows[0]] + rest[..i - 1];
        DownloadedAppend([rows[0]], rest[..i - 1]);
      }
    }
  }

  /** The files of the downloaded rows, one by one. */
  lemma DownloadedFilesMembers(rows: seq<LogRow>, name: string)
    ensures name in DownloadedFiles(rows) <==>
      exists i :: 0 <= i < |rows| && rows[i].status == Downloaded && DoiChecker.PdfName(rows[i].doi) == name
  {
    if name in DownloadedFiles(rows) {
      var r :| r in rows && r.status == Downloaded && DoiChecker.PdfName(r.doi) == name;
      var i :| 0 <= i < |rows| && rows[i] == r;
    }
  }

  /** A DOI is skipped exactly when its file was in the folder at the start or an
      earlier DOI with the same file name was downloaded in this run (two DOIs that
      differ only in `/` against `_` share a file name). */
  lemma SkippedExactly(dois: seq<string>, existing: set<string>, browse: (string, string) -> PageLoad, download: string -> Response, j: nat)
    requires j < |dois|
    ensures var rows := BotFrom(dois, existing, browse, download);
      && j < |rows|
      && (rows[j].status == Skipped <==>
        || DoiChecker.PdfName(dois[j]) in existing
        || exists i :: 0 <= i < j && rows[i].status == Downloaded && DoiChecker.PdfName(dois[i]) == DoiChecker.PdfName(dois[j]))
  {
    var rows := BotFrom(dois, existing, browse, download);
    BotRows(dois, existing, browse, download);
    DoiRowBasics(dois[j], StateAt(dois, existing, browse, download, j), browse, download);
    var name := DoiChecker.PdfName(dois[j]);
    DownloadedFilesMembers(rows[..j], name);
    forall i | 0 <= i < j ensures rows[..j][i] == rows[i] && rows[i].doi == dois[i] {
      DoiRowBasics(dois[i], StateAt(dois, existing, browse, download, i), browse, download);
    }
  }

  /** One pass of the main loop keeps its invariant. */
  lemma RunStep(dois: seq<string>, i: nat, existing0: set<string>, results: seq<LogRow>, existing: set<string>,
                browse: (string, string) -> PageLoad, download: string -> Response)
    requires i < |dois|
    requires results + BotFrom(dois[i..], existing, browse, download) == BotFrom(dois, existing0, browse, download)
    requires existing == existing0 + DownloadedFiles(results)
    ensures var row, existing' := DoiRow(dois[i], existing, browse, download), After(dois[i], existing, browse, download);
      && (results + [row]) + BotFrom(dois[i + 1..], existing', browse, download) == BotFrom(dois, existing0, browse, download)
      && existing' == existing0 + DownloadedFiles(results + [row])
  {
    var row := DoiRow(dois[i], existing, browse, download);
    BotFromStep(dois, i, existing, browse, download);
    DoiRowBasics(dois[i], existing, browse, download);
    DownloadedOne(row);
    DownloadedAppend(results, [row]);
  }

  /** The main loop: the log it writes, and the files then in the output folder. */
  method Run(lines: seq<string>, existing0: set<string>, browse: (string, string) -> PageLoad, download: string -> Response)
    returns (results: seq<LogRow>, existing: set<string>)
    ensures results == BotFrom(DoiLines(lines), existing0, browse, download)
    ensures existing == existing0 + DownloadedFiles(results)
  {
    var dois := DoiLines(lines);
    results, existing := [], existing0;
    for i := 0 to |dois|
      invariant results + BotFrom(dois[i..], existing, browse, download) == BotFrom(dois, existing0, browse, download)
      invariant existing == existing0 + DownloadedFiles(results)
    {
      var doi := dois[i];
      var row, existing' := ProcessDoi(doi, existing, browse, download);
      RunStep(dois, i, existing0, results, existing, browse, download);
      results, existing := results + [row], existing';
    }
  }

  /** One pass of the main loop: the DOI's row, and the folder afterwards. */
  method ProcessDoi(doi: string, existing: set<string>, browse: (string, string) -> PageLoad, download: string -> Response)
    returns (row: LogRow, existing': set<string>)
    ensures row == DoiRow(doi, existing, browse, download)
    ensures existing' == After(doi, existing, browse, download)
  {
    var filename := DoiChecker.PdfName(doi);
    existing' := existing;
    if filename in existing {
      row := LogRow(doi, Skipped, "Already downloaded", "");
      return;
    }
    var hit := TryMirrors(doi, browse, download);
    FirstSomeFacts(Attempts(doi, browse, download), 0);
    if hit.Some? {
      var mirror := Mirrors[hit.value];
      var pdfUrl := ExtractPdfUrl(browse(mirror, doi), mirror).value;
      row := LogRow(doi, Downloaded, mirror, pdfUrl);
      existing' := existing + {filename};
    } else {
      row := LogRow(doi, Failed, "None", "N/A");
    }
  }
}
