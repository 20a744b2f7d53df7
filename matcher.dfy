/** `matcher.py`: every PDF of a folder is matched to the first DOI, in the order of the
    normalised-DOI dictionary, whose key occurs in the file's key; the others are listed
    as unmatched. The folder listing is a sequence of file names. */
module Matcher {
  import opened PyStr
  import opened Values
  import opened Dicts

  /** A cell of the `DOI` column: `None` for a missing value. */
  type Cell = Option<Value>

  /** `df['DOI'].dropna().unique()`: the present values, each once, in order of first
      appearance. */
  function DoiList(column: seq<Cell>): seq<Value> {
    DedupFrom(FilterMap(column, Id), Id, {})
  }

  /** `doi.replace("/", "_").lower()`. */
  function NormKey(doi: string): (r: string)
    ensures |r| == |doi| && '/' !in r
    ensures forall i :: 0 <= i < |r| ==> !('A' <= r[i] <= 'Z')
  {
    Lower(ReplaceChar(doi, '/', '_'))
  }

  /** Position by position, a DOI key is the DOI's character with `/` turned into `_`,
      then lower-cased. */
  lemma NormKeyChars(doi: string)
    ensures forall i :: 0 <= i < |doi| ==> NormKey(doi)[i] == LowerChar(if doi[i] == '/' then '_' else doi[i])
  {
  }

  /** The DOIs as strings, or `None` when one is not a string and `replace` fails on it. */
  function AllStrings(vs: seq<Value>): (r: Option<seq<string>>)
    ensures r.Some? <==> forall i :: 0 <= i < |vs| ==> vs[i].Str?
    ensures r.Some? ==> |r.value| == |vs| && forall i :: 0 <= i < |vs| ==> vs[i] == Str(r.value[i])
  {
    if vs == [] then Some([])
    else if !vs[0].Str? then None
    else
      match AllStrings(vs[1..])
      case None => None
      case Some(rest) => Some([vs[0].s] + rest)
  }

  /** `{doi.replace("/", "_").lower(): doi for doi in doi_list}`. */
  function Normalized(dois: seq<string>): seq<(string, string)> {
    if dois == [] then []
    else
      var last := dois[|dois| - 1];
      Put(Normalized(dois[..|dois| - 1]), NormKey(last), last)
  }

  /** `k` is the key of some DOI of the list. */
  predicate IsKeyOf(dois: seq<string>, k: string) {
    exists i :: 0 <= i < |dois| && NormKey(dois[i]) == k
  }

  /** One more DOI adds exactly its own key to the keys of the list. */
  lemma IsKeyOfSnoc(init: seq<string>, last: string, k: string)
    ensures IsKeyOf(init + [last], k) <==> IsKeyOf(init, k) || k == NormKey(last)
  {
    var dois := init + [last];
    if IsKeyOf(init, k) {
      var i :| 0 <= i < |init| && NormKey(init[i]) == k;
      assert dois[i] == init[i];
    }
    if IsKeyOf(dois, k) && k != NormKey(last) {
      var i :| 0 <= i < |dois| && NormKey(dois[i]) == k;
      assert init[i] == dois[i];
    }
    assert dois[|init|] == last;
  }

  /** The dictionary holds each DOI's key once, and no other key. */
  lemma {:induction false} NormalizedKeys(dois: seq<string>)
    ensures DistinctKeys(Normalized(dois))
    ensures forall k :: k in Keys(Normalized(dois)) <==> IsKeyOf(dois, k)
  {
    if dois != [] {
      var init, last := dois[..|dois| - 1], dois[|dois| - 1];
      assert init + [last] == dois;
      NormalizedKeys(init);
      PutDistinct(Normalized(init), NormKey(last), last);
      PutKeys(Normalized(init), NormKey(last), last);
      forall k ensures k in Keys(Normalized(dois)) <==> IsKeyOf(dois, k) {
        IsKeyOfSnoc(init, last, k);
      }
    }
  }

  /** A later DOI with the same key overwrites an earlier one: each key maps to the
      last DOI of the list that has it. */
  lemma {:induction false} NormalizedValues(dois: seq<string>, j: nat)
    requires j < |dois|
    requires forall j' :: j < j' < |dois| ==> NormKey(dois[j']) != NormKey(dois[j])
    ensures Get(Normalized(dois), NormKey(dois[j]), "") == dois[j]
  {
    var init, last := dois[..|dois| - 1], dois[|dois| - 1];
    PutGet(Normalized(init), NormKey(last), last, NormKey(dois[j]), "");
    if j < |init| {
      assert NormKey(last) != NormKey(dois[j]);
      assert dois[j] == init[j];
      forall j' | j < j' < |init| ensures NormKey(init[j']) != NormKey(init[j]) {
        assert init[j'] == dois[j'];
      }
      NormalizedValues(init, j);
    }
  }

  /** `filename.replace(".pdf", "").lower()`. */
  function FileKey(filename: string): string {
    Lower(RemoveAll(filename, ".pdf"))
  }

  /** A file saved as a name without `.pdf` in it plus the extension `.pdf` has the
      lower-cased name as its key. */
  lemma FileKeyOfStem(stem: string)
    requires !Contains(stem, ".pdf")
    ensures FileKey(stem + ".pdf") == Lower(stem)
  {
    RemoveAllTrailing(stem, ".pdf");
  }

  /** Only the lower-case `.pdf` is removed: `X.PDF` keeps its extension in its key. */
  lemma FileKeyUpperExtension()
    ensures FileKey("X.PDF") == "x.pdf"
  {
    var s := "X.PDF";
    forall i | 0 <= i <= |s| ensures !OccursAt(s, ".pdf", i) {
      assert s[1] == '.' && s[2] == 'P';
    }
    assert RemoveAll(s, ".pdf") == s;
    assert Lower(s) == "x.pdf" by {
      assert Lower(s)[0] == 'x' && Lower(s)[2] == 'p' && Lower(s)[3] == 'd' && Lower(s)[4] == 'f';
    }
  }

  predicate IsPdfName(f: string) {
    EndsWith(Lower(f), ".pdf")
  }

  /** The first entry of `d` from `j` on whose key occurs in `fileKey`. */
  function FirstHit(d: seq<(string, string)>, fileKey: string, j: nat): (r: Option<nat>)
    ensures r.Some? ==> j <= r.value < |d| && Contains(fileKey, d[r.value].0)
    ensures r.Some? ==> forall i :: j <= i < r.value ==> !Contains(fileKey, d[i].0)
    ensures r.None? ==> forall i :: j <= i < |d| ==> !Contains(fileKey, d[i].0)
    decreases |d| - j
  {
    if j >= |d| then None
    else if Contains(fileKey, d[j].0) then Some(j)
    else FirstHit(d, fileKey, j + 1)
  }

  /** The inner loop over `normalized_dois.items()`, stopping at the first hit. */
  method FindFirst(d: seq<(string, string)>, fileKey: string) returns (hit: Option<nat>)
    ensures hit == FirstHit(d, fileKey, 0)
  {
    hit := None;
    var j := 0;
    while j < |d|
      invariant j <= |d|
      invariant FirstHit(d, fileKey, 0) == FirstHit(d, fileKey, j)
    {
      if Contains(fileKey, d[j].0) {
        hit := Some(j);
        break;
      }
      j := j + 1;
    }
  }

  /** One row of `matched_dois.csv`. */
  datatype MatchRow = MatchRow(filename: string, matchedDoi: string)

  function MatchFile(d: seq<(string, string)>, f: string): Option<MatchRow> {
    if !IsPdfName(f) then None
    else match FirstHit(d, FileKey(f), 0)
      case Some(i) => Some(MatchRow(f, d[i].1))
      case None => None
  }

  function UnmatchedFile(d: seq<(string, string)>, f: string): Option<string> {
    if IsPdfName(f) && FirstHit(d, FileKey(f), 0).None? then Some(f) else None
  }

  function MatchOf(d: seq<(string, string)>): string -> Option<MatchRow> {
    f => MatchFile(d, f)
  }

  function UnmatchedOf(d: seq<(string, string)>): string -> Option<string> {
    f => UnmatchedFile(d, f)
  }

  datatype Outcome = Outcome(matches: seq<MatchRow>, unmatched: seq<string>)

  /** What the script writes, or `None` when a DOI is not a string. */
  function MatchAll(column: seq<Cell>, names: seq<string>): Option<Outcome> {
    match AllStrings(DoiList(column))
    case None => None
    case Some(dois) =>
      var d := Normalized(dois);
      Some(Outcome(FilterMap(names, MatchOf(d)), FilterMap(names, UnmatchedOf(d))))
  }

  /** The script, with its nested loops. */
  method MatchPdfs(column: seq<Cell>, names: seq<string>) returns (r: Option<Outcome>)
    ensures r == MatchAll(column, names)
  {
    var dois := AllStrings(DoiList(column));
    if dois.None? {
      return None;
    }
    var d := Normalized(dois.value);
    var matches, unmatched := Classify(d, names);
    r := Some(Outcome(matches, unmatched));
  }

  /** The outer loop over the listing. */
  method Classify(d: seq<(string, string)>, names: seq<string>) returns (matches: seq<MatchRow>, unmatched: seq<string>)
    ensures matches == FilterMap(names, MatchOf(d))
    ensures unmatched == FilterMap(names, UnmatchedOf(d))
  {
    matches, unmatched := [], [];
    for k := 0 to |names|
      invariant matches == FilterMap(names[..k], MatchOf(d))
      invariant unmatched == FilterMap(names[..k], UnmatchedOf(d))
    {
      var filename := names[k];
      assert names[..k + 1][..k] == names[..k];
      if IsPdfName(filename) {
        var fileKey := Lower(RemoveAll(filename, ".pdf"));
        var hit := FindFirst(d, fileKey);
        if hit.Some? {
          matches := matches + [MatchRow(filename, d[hit.value].1)];
        } else {
          unmatched := unmatched + [filename];
        }
      }
    }
    assert names[..|names|] == names;
  }

  /** A file whose lower-cased name ends in `.pdf` is matched or unmatched, never both;
      it is matched to the value of the first dictionary entry whose key occurs in its
      key, and unmatched exactly when no key occurs in it; any other entry is in
      neither list. */
  lemma FileOutcome(d: seq<(string, string)>, f: string)
    ensures !IsPdfName(f) ==> MatchFile(d, f).None? && UnmatchedFile(d, f).None?
    ensures IsPdfName(f) ==> (MatchFile(d, f).Some? <==> UnmatchedFile(d, f).None?)
    ensures UnmatchedFile(d, f).Some? <==> IsPdfName(f) && forall i :: 0 <= i < |d| ==> !Contains(FileKey(f), d[i].0)
    ensures MatchFile(d, f).Some? ==> exists i :: (0 <= i < |d|
      && Contains(FileKey(f), d[i].0) && MatchFile(d, f).value == MatchRow(f, d[i].1)
      && forall i' :: 0 <= i' < i ==> !Contains(FileKey(f), d[i'].0))
  {
    if IsPdfName(f) && FirstHit(d, FileKey(f), 0).None? {
      assert UnmatchedFile(d, f).Some?;
    }
    if UnmatchedFile(d, f).None? && IsPdfName(f) {
      var i := FirstHit(d, FileKey(f), 0).value;
      assert Contains(FileKey(f), d[i].0);
    }
  }

  /** The number of names ending in `.pdf` in any case. */
  function PdfCount(names: seq<string>): nat {
    if names == [] then 0
    else PdfCount(names[..|names| - 1]) + if IsPdfName(names[|names| - 1]) then 1 else 0
  }

  /** Every considered file lands in exactly one list, in listing order. */
  lemma {:induction false} Partition(d: seq<(string, string)>, names: seq<string>)
    ensures |FilterMap(names, MatchOf(d))| + |FilterMap(names, UnmatchedOf(d))| == PdfCount(names)
  {
    if names != [] {
      Partition(d, names[..|names| - 1]);
      FileOutcome(d, names[|names| - 1]);
    }
  }
}
