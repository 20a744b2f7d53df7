/** `doichecker.py`: a PDF named after a DOI (`/` written as `_`) is matched back to the
    DOI list by undoing the renaming. The folder listing is a sequence of file names in
    the order the directory yields them. */
module DoiChecker {
  import opened PyStr
  import opened Values

  /** The last index of `c` in `s`, `str.rfind` with `None` for -1. */
  function LastIndexOf(s: string, c: char): (r: Option<nat>)
    ensures r.None? <==> c !in s
    ensures r.Some? ==> r.value < |s| && s[r.value] == c && forall j :: r.value < j < |s| ==> s[j] != c
  {
    if s == [] then None
    else if s[|s| - 1] == c then Some(|s| - 1)
    else LastIndexOf(s[..|s| - 1], c)
  }

  /** `os.path.splitext(p)[0]` (POSIX): `p` without its last extension, where the
      extension starts at the last dot of the last path component, provided that dot is
      not part of the component's leading run of dots. */
  function SplitExtRoot(p: string): string {
    var sep: int := match LastIndexOf(p, '/') case Some(k) => k case None => -1;
    match LastIndexOf(p, '.')
    case None => p
    case Some(dot) =>
      if dot > sep && exists i :: sep + 1 <= i < dot && p[i] != '.' then p[..dot] else p
  }

  /** `fname.lower().endswith('.pdf')`. */
  predicate IsPdfName(f: string) {
    EndsWith(Lower(f), ".pdf")
  }

  /** The DOI a file name stands for: the root with every `_` turned back into `/`. */
  function Candidate(f: string): string {
    ReplaceChar(SplitExtRoot(f), '_', '/')
  }

  /** `set(df['DOI'].astype(str).str.strip())`. */
  function DoiSet(column: seq<Value>): set<string> {
    set v | v in column :: Strip(Show(v))
  }

  /** One row of the output: the DOI and the unchanged file name. */
  datatype Match = Match(doi: string, pdfFile: string)

  function MatchFile(doiSet: set<string>, f: string): Option<Match> {
    if IsPdfName(f) && Candidate(f) in doiSet then Some(Match(Candidate(f), f)) else None
  }

  function MatchOf(doiSet: set<string>): string -> Option<Match> {
    f => MatchFile(doiSet, f)
  }

  /** The matches of a listing, in listing order. */
  function Matched(names: seq<string>, doiSet: set<string>): seq<Match> {
    FilterMap(names, MatchOf(doiSet))
  }

  /** Steps 1 and 2 of the script. */
  method CheckPdfs(column: seq<Value>, names: seq<string>) returns (matched: seq<Match>)
    ensures matched == Matched(names, DoiSet(column))
  {
    var doiSet := DoiSet(column);
    matched := [];
    for k := 0 to |names|
      invariant matched == Matched(names[..k], doiSet)
    {
      var fname := names[k];
      assert names[..k + 1][..k] == names[..k];
      if IsPdfName(fname) {
        var name := SplitExtRoot(fname);
        var doi := ReplaceChar(name, '_', '/');
        if doi in doiSet {
          matched := matched + [Match(doi, fname)];
        }
      }
    }
    assert names[..|names|] == names;
  }

  /** A file is matched exactly when its name ends in `.pdf` in any case and its
      candidate DOI is listed; the match pairs that DOI with the unchanged name; there
      is at most one match per file, in listing order. */
  lemma MatchedFacts(names: seq<string>, more: seq<string>, doiSet: set<string>)
    ensures forall m :: m in Matched(names, doiSet) <==>
      m.pdfFile in names && IsPdfName(m.pdfFile) && m.doi == Candidate(m.pdfFile) && m.doi in doiSet
    ensures |Matched(names, doiSet)| <= |names|
    ensures Matched(names + more, doiSet) == Matched(names, doiSet) + Matched(more, doiSet)
  {
    FilterMapMembers(names, MatchOf(doiSet));
    FilterMapLength(names, MatchOf(doiSet));
    FilterMapAppend(names, more, MatchOf(doiSet));
  }

  /** The name the downloader gives a DOI's PDF: `doi.replace("/", "_") + ".pdf"`. */
  function PdfName(doi: string): string {
    ReplaceChar(doi, '/', '_') + ".pdf"
  }

  lemma ReplaceBack(d: string)
    ensures ReplaceChar(ReplaceChar(d, '/', '_'), '_', '/') == d <==> '_' !in d
  {
    var back := ReplaceChar(ReplaceChar(d, '/', '_'), '_', '/');
    if '_' in d {
      var i :| 0 <= i < |d| && d[i] == '_';
      assert back[i] == '/';
    }
  }

  lemma PdfNameShape(d: string)
    ensures var name := PdfName(d);
      && name[..|d|] == ReplaceChar(d, '/', '_') && |name| == |d| + 4
      && '/' !in name && LastIndexOf(name, '.') == Some(|d|) && IsPdfName(name)
  {
    var name := PdfName(d);
    assert name[|d|..] == ".pdf";
    assert Lower(name)[|name| - 4..] == ".pdf";
    assert name[|d|] == '.' && name[|d| + 1] == 'p' && name[|d| + 2] == 'd' && name[|d| + 3] == 'f';
  }

  /** The downloader's file name is always considered, and it leads back to its DOI
      exactly when the DOI holds no `_` (which the renaming would turn into `/`) and
      is not made of dots alone (a name like `...pdf` has no extension to split off). */
  lemma RoundTrip(d: string)
    ensures IsPdfName(PdfName(d))
    ensures Candidate(PdfName(d)) == d <==> '_' !in d && exists i :: 0 <= i < |d| && d[i] != '.'
  {
    var name := PdfName(d);
    PdfNameShape(d);
    ReplaceBack(d);
    if exists i :: 0 <= i < |d| && d[i] != '.' {
      var i :| 0 <= i < |d| && d[i] != '.';
      assert name[i] != '.';
      assert SplitExtRoot(name) == ReplaceChar(d, '/', '_');
    } else {
      forall i | 0 <= i < |d| ensures name[i] == '.' {
        assert d[i] == '.';
      }
      assert SplitExtRoot(name) == name;
      assert |Candidate(name)| != |d|;
    }
  }
}
