/** `cleaner.py`: `clean_text` cuts an article's text to the part between its first
    section keyword and its reference list, drops boilerplate lines, strips each line and
    collapses runs of newlines and of spaces; rows whose cleaned text is too short or
    whose label is not one of `4*`..`1*` are dropped, and the label becomes a number. */
module Cleaner {
  import opened PyStr
  import opened Values

  /** The alternatives of the start pattern `\b(ABSTRACT|INTRODUCTION|...)\b`. */
  const StartKeywords: seq<string> := ["ABSTRACT", "INTRODUCTION", "BACKGROUND", "OBJECTIVE", "AIM"]
  /** The alternatives of the end pattern `\b(REFERENCES|BIBLIOGRAPHY)\b`. */
  const EndKeywords: seq<string> := ["REFERENCES", "BIBLIOGRAPHY"]
  /** The alternatives of the noise-line pattern, already in lower case. */
  const NoisePatterns: seq<string> := ["copyright", "doi:", "pmid:", "all rights reserved", "terms of use"]
  /** Rows need strictly more characters than this (`str.len() > 500`). */
  const MinLength: nat := 500

  /** A character of `\w`, restricted to ASCII. */
  predicate WordChar(c: char) {
    ('a' <= c <= 'z') || ('A' <= c <= 'Z') || ('0' <= c <= '9') || c == '_'
  }

  /** `\bw\b` matches `s` at `p`, ignoring case. */
  predicate WordMatchAt(s: string, w: string, p: nat) {
    && p + |w| <= |s|
    && Lower(s[p..p + |w|]) == Lower(w)
    && (p == 0 || !WordChar(s[p - 1]))
    && (p + |w| == |s| || !WordChar(s[p + |w|]))
  }

  /** One of the alternatives matches at `p`. */
  predicate AnyWordAt(s: string, kws: seq<string>, p: nat) {
    exists k :: 0 <= k < |kws| && WordMatchAt(s, kws[k], p)
  }

  /** `re.search(...).start()` from `p` on: the least position at which a match starts. */
  function Search(s: string, kws: seq<string>, p: nat): (r: Option<nat>)
    ensures r.Some? ==> p <= r.value <= |s| && AnyWordAt(s, kws, r.value)
    ensures r.Some? ==> forall q :: p <= q < r.value ==> !AnyWordAt(s, kws, q)
    ensures r.None? ==> forall q :: p <= q ==> !AnyWordAt(s, kws, q)
    decreases |s| - p
  {
    if p > |s| then None
    else if AnyWordAt(s, kws, p) then Some(p)
    else Search(s, kws, p + 1)
  }

  /** Lines 15-17: drop everything before the first start keyword. */
  function CutStart(text: string): string {
    match Search(text, StartKeywords, 0)
    case Some(p) => text[p..]
    case None => text
  }

  /** Lines 20-22: drop everything from the first end keyword on. */
  function CutEnd(text: string): string {
    match Search(text, EndKeywords, 0)
    case Some(p) => text[..p]
    case None => text
  }

  /** Every alternative is a non-empty word of capital letters. */
  predicate CapitalWords(kws: seq<string>) {
    forall k :: 0 <= k < |kws| ==> kws[k] != [] && forall i :: 0 <= i < |kws[k]| ==> 'A' <= kws[k][i] <= 'Z'
  }

  lemma KeywordsAreCapitalWords()
    ensures CapitalWords(StartKeywords) && CapitalWords(EndKeywords)
  {
  }

  /** A word match that is a prefix of `s[p..]` in position is a match in `s[p..]` too. */
  lemma MatchInSuffix(s: string, w: string, p: nat)
    requires WordMatchAt(s, w, p)
    ensures WordMatchAt(s[p..], w, 0)
  {
    assert s[p..][0..|w|] == s[p..p + |w|];
  }

  /** If a start keyword occurs, the cut text is what follows its first occurrence, and
      it begins with that keyword as a whole word; otherwise the text is kept whole. */
  lemma CutStartFacts(text: string)
    ensures Search(text, StartKeywords, 0).None? ==> CutStart(text) == text
    ensures Search(text, StartKeywords, 0).Some? ==>
      var p := Search(text, StartKeywords, 0).value;
      && CutStart(text) == text[p..]
      && AnyWordAt(CutStart(text), StartKeywords, 0)
      && forall q: nat :: q < p ==> !AnyWordAt(text, StartKeywords, q)
  {
    match Search(text, StartKeywords, 0)
    case None =>
    case Some(p) =>
      var k :| 0 <= k < |StartKeywords| && WordMatchAt(text, StartKeywords[k], p);
      MatchInSuffix(text, StartKeywords[k], p);
  }

  /** A word match inside `s[..p]` is one inside `s`, when a word match of a capital
      word starts at `p` (a word ending right at `p` has no boundary after it there). */
  lemma MatchInPrefix(s: string, w: string, q: nat, kws: seq<string>, p: nat)
    requires CapitalWords(kws) && w != [] && forall i :: 0 <= i < |w| ==> 'A' <= w[i] <= 'Z'
    requires p <= |s| && AnyWordAt(s, kws, p)
    requires WordMatchAt(s[..p], w, q)
    ensures WordMatchAt(s, w, q)
  {
    var e := q + |w|;
    assert s[..p][q..e] == s[q..e];
    if e == p {
      var last := s[e - 1];
      assert LowerChar(last) == Lower(s[q..e])[|w| - 1] == Lower(w)[|w| - 1];
      assert WordChar(last);
      assert false;
    }
  }

  /** No end keyword survives the end cut. */
  lemma CutEndFacts(text: string)
    ensures forall q :: !AnyWordAt(CutEnd(text), EndKeywords, q)
    ensures Search(text, EndKeywords, 0).Some? ==> CutEnd(text) == text[..Search(text, EndKeywords, 0).value]
    ensures Search(text, EndKeywords, 0).None? ==> CutEnd(text) == text
  {
    match Search(text, EndKeywords, 0)
    case None =>
    case Some(p) =>
      KeywordsAreCapitalWords();
      forall q | AnyWordAt(CutEnd(text), EndKeywords, q) ensures false {
        var k :| 0 <= k < |EndKeywords| && WordMatchAt(text[..p], EndKeywords[k], q);
        MatchInPrefix(text, EndKeywords[k], q, EndKeywords, p);
        assert AnyWordAt(text, EndKeywords, q);
      }
  }

  /** `re.search(pattern, line, re.IGNORECASE)` for the noise pattern. */
  predicate Noisy(line: string) {
    exists k :: 0 <= k < |NoisePatterns| && Contains(Lower(line), NoisePatterns[k])
  }

  /** The lines the loop of lines 27-30 keeps, each stripped, in order. */
  function KeptLines(lines: seq<string>): seq<string> {
    if lines == [] then []
    else
      var last := lines[|lines| - 1];
      KeptLines(lines[..|lines| - 1]) + (if Noisy(last) then [] else [Strip(last)])
  }

  /** Lines 25-30. */
  method CleanLines(lines: seq<string>) returns (cleanedLines: seq<string>)
    ensures cleanedLines == KeptLines(lines)
  {
    cleanedLines := [];
    for i := 0 to |lines|
      invariant cleanedLines == KeptLines(lines[..i])
    {
      var line := lines[i];
      assert lines[..i + 1][..i] == lines[..i];
      if Noisy(line) {
        continue;
      }
      cleanedLines := cleanedLines + [Strip(line)];
    }
    assert lines[..|lines|] == lines;
  }

  /** A piece of a line is no noisier than the line. */
  lemma NoisySlice(line: string, a: nat, b: nat)
    requires a <= b <= |line|
    ensures Noisy(line[a..b]) ==> Noisy(line)
  {
    if Noisy(line[a..b]) {
      var k :| 0 <= k < |NoisePatterns| && Contains(Lower(line[a..b]), NoisePatterns[k]);
      LowerSlice(line, a, b);
      ContainsSlice(Lower(line), a, b, NoisePatterns[k]);
    }
  }

  /** `s.strip()` is the piece `s[a..b]` of `s`. */
  lemma StripIsSlice(s: string) returns (a: nat, b: nat)
    ensures a <= b <= |s| && Strip(s) == s[a..b]
  {
    var l := StripLeft(s);
    var r := StripRight(l);
    assert Strip(s) == r;
    a := |s| - |l|;
    b := a + |r|;
    assert l == s[a..];
    assert r == l[..|r|];
    assert l[..|r|] == s[a..b];
  }

  /** No whitespace at either end, as after `strip()`. */
  predicate Trimmed(s: string) {
    s != [] ==> !IsSpace(s[0]) && !IsSpace(s[|s| - 1])
  }

  /** A line that is kept is clean: not noise, stripped, and free of newlines when
      the input line was. */
  predicate CleanLine(l: string, newlineFree: bool) {
    && !Noisy(l)
    && Trimmed(l)
    && (newlineFree ==> '\n' !in l)
  }

  lemma StripClean(line: string)
    requires !Noisy(line)
    ensures CleanLine(Strip(line), '\n' !in line)
  {
    var a, b := StripIsSlice(line);
    NoisySlice(line, a, b);
  }

  /** The kept lines are the stripped non-noise lines: none is noise, none starts or
      ends with whitespace, and none holds a newline when the input lines do not. */
  lemma {:induction false} KeptLinesClean(lines: seq<string>)
    ensures |KeptLines(lines)| <= |lines|
    ensures forall j :: 0 <= j < |KeptLines(lines)| ==>
      CleanLine(KeptLines(lines)[j], forall i :: 0 <= i < |lines| ==> '\n' !in lines[i])
  {
    if lines != [] {
      var init, last := lines[..|lines| - 1], lines[|lines| - 1];
      KeptLinesClean(init);
      var free := forall i :: 0 <= i < |lines| ==> '\n' !in lines[i];
      var freeInit := forall i :: 0 <= i < |init| ==> '\n' !in init[i];
      assert free ==> freeInit by {
        if free {
          forall i | 0 <= i < |init| ensures '\n' !in init[i] {
            assert init[i] == lines[i];
          }
        }
      }
      if !Noisy(last) {
        StripClean(last);
      }
      forall j | 0 <= j < |KeptLines(lines)| ensures CleanLine(KeptLines(lines)[j], free) {
        if j < |KeptLines(init)| {
          assert KeptLines(lines)[j] == KeptLines(init)[j];
          assert CleanLine(KeptLines(init)[j], freeInit);
        }
      }
    }
  }

  /** Lines are kept in input order. */
  lemma {:induction false} KeptLinesAppend(a: seq<string>, b: seq<string>)
    ensures KeptLines(a + b) == KeptLines(a) + KeptLines(b)
    decreases |b|
  {
    if b == [] {
      assert a + b == a;
    } else {
      assert (a + b)[..|a + b| - 1] == a + b[..|b| - 1];
      KeptLinesAppend(a, b[..|b| - 1]);
    }
  }

  /** No two consecutive `c`. */
  predicate NoDouble(s: string, c: char) {
    forall i :: 0 <= i < |s| - 1 ==> !(s[i] == c && s[i + 1] == c)
  }

  /** `re.sub(c + '+', c, s)`, which for newlines is also `re.sub(r'\n{2,}', '\n', s)`:
      every run of `c` becomes a single `c`. */
  function Squeeze(s: string, c: char): (r: string)
    ensures |r| <= |s|
    ensures r == [] <==> s == []
    ensures s != [] ==> r[0] == s[0]
    ensures NoDouble(r, c)
  {
    if |s| <= 1 then s
    else if s[0] == c && s[1] == c then Squeeze(s[1..], c)
    else [s[0]] + Squeeze(s[1..], c)
  }

  /** `s` without the characters that repeat a `c` right after a `c`: position `i` of
      `s` is dropped exactly when `i > 0 && s[i - 1] == c && s[i] == c`, and every other
      position is kept, in order. */
  function DropRepeats(s: string, c: char): string {
    if s == [] then []
    else
      var n := |s| - 1;
      DropRepeats(s[..n], c) + (if n > 0 && s[n - 1] == c && s[n] == c then [] else [s[n]])
  }

  /** Squeezing a text extended by one character extends the squeezed text by that
      character, unless it repeats a `c` that ended the text. */
  lemma {:induction false} SqueezeSnoc(s: string, y: char, c: char)
    ensures Squeeze(s + [y], c) == Squeeze(s, c) + (if |s| > 0 && s[|s| - 1] == c && y == c then [] else [y])
    decreases |s|
  {
    if |s| == 0 {
      assert s + [y] == [y];
    } else if |s| == 1 {
      assert (s + [y])[1..] == [y];
    } else {
      assert (s + [y])[1..] == s[1..] + [y];
      SqueezeSnoc(s[1..], y, c);
    }
  }

  /** `re.sub` collapses each run of `c` to a single `c` and changes nothing else: the
      result is `s` with exactly the positions that repeat a `c` removed. */
  lemma {:induction false} SqueezeIsDropRepeats(s: string, c: char)
    ensures Squeeze(s, c) == DropRepeats(s, c)
  {
    if s != [] {
      var n := |s| - 1;
      SqueezeIsDropRepeats(s[..n], c);
      SqueezeSnoc(s[..n], s[n], c);
      assert s[..n] + [s[n]] == s;
    }
  }

  /** `s` with every `c` removed. */
  function Without(s: string, c: char): string {
    if s == [] then []
    else (if s[0] == c then [] else [s[0]]) + Without(s[1..], c)
  }

  /** Squeezing only removes repeated `c`: the other characters stay, in order. */
  lemma {:induction false} SqueezeKeepsOthers(s: string, c: char)
    ensures Without(Squeeze(s, c), c) == Without(s, c)
  {
    if |s| > 1 {
      SqueezeKeepsOthers(s[1..], c);
    }
  }

  /** A text without runs of `c` is left unchanged; hence squeezing is idempotent. */
  lemma {:induction false} SqueezeNoDouble(s: string, c: char)
    ensures NoDouble(s, c) <==> Squeeze(s, c) == s
  {
    if |s| > 1 {
      SqueezeNoDouble(s[1..], c);
      if NoDouble(s, c) {
        assert NoDouble(s[1..], c);
      }
      if Squeeze(s, c) == s {
        var r := Squeeze(s[1..], c);
        if s[0] == c && s[1] == c {
          assert false;
        }
        assert [s[0]] + r == s;
        assert r == s[1..];
      }
    }
  }

  /** Squeezing one character creates no run of another. */
  lemma {:induction false} SqueezeKeepsNoDouble(s: string, c: char, d: char)
    requires c != d && NoDouble(s, d)
    ensures NoDouble(Squeeze(s, c), d)
  {
    if |s| > 1 {
      assert NoDouble(s[1..], d);
      SqueezeKeepsNoDouble(s[1..], c, d);
    }
  }

  lemma NoDoubleSlice(s: string, c: char, a: nat, b: nat)
    requires a <= b <= |s| && NoDouble(s, c)
    ensures NoDouble(s[a..b], c)
  {
    assert forall i :: 0 <= i < b - a ==> s[a..b][i] == s[a + i];
  }

  /** Lines 32-35: join the lines and normalise the whitespace. */
  function Normalize(lines: seq<string>): string {
    Strip(Squeeze(Squeeze(Join(lines, '\n'), '\n'), ' '))
  }

  /** `clean_text` on one cell of the `text` column. */
  function CleanText(v: Value): string {
    if !v.Str? then ""
    else Normalize(KeptLines(Split(CutEnd(CutStart(v.s)), '\n')))
  }

  /** `clean_text`, with its line loop. */
  method Clean(v: Value) returns (cleaned: string)
    ensures cleaned == CleanText(v)
  {
    if !v.Str? {
      return "";
    }
    var text := v.s;
    text := CutStart(text);
    text := CutEnd(text);
    var lines := Split(text, '\n');
    var cleanedLines := CleanLines(lines);
    cleaned := Normalize(cleanedLines);
  }

  /** A cleaned text has no blank line, no double space and no whitespace at either end;
      a cell that is not a string cleans to "". */
  lemma CleanTextShape(v: Value)
    ensures !v.Str? ==> CleanText(v) == ""
    ensures NoDouble(CleanText(v), '\n') && NoDouble(CleanText(v), ' ')
    ensures Trimmed(CleanText(v))
  {
    if v.Str? {
      var lines := KeptLines(Split(CutEnd(CutStart(v.s)), '\n'));
      var t := Squeeze(Squeeze(Join(lines, '\n'), '\n'), ' ');
      SqueezeKeepsNoDouble(Squeeze(Join(lines, '\n'), '\n'), ' ', '\n');
      var a, b := StripIsSlice(t);
      NoDoubleSlice(t, '\n', a, b);
      NoDoubleSlice(t, ' ', a, b);
    }
  }

  /** `df['label'].map(label_map)`: `'4*'`..`'1*'` to 4..1, anything else missing. */
  function LabelMap(v: Value): (r: Option<int>)
    ensures r.Some? <==> v.Str? && |v.s| == 2 && '1' <= v.s[0] <= '4' && v.s[1] == '*'
    ensures r.Some? ==> r.value == v.s[0] as int - '0' as int
  {
    if v == Str("4*") then Some(4)
    else if v == Str("3*") then Some(3)
    else if v == Str("2*") then Some(2)
    else if v == Str("1*") then Some(1)
    else None
  }

  /** A row of the data frame: its `text` and `label` cells. */
  datatype Row = Row(text: Value, rating: Value)

  /** A row of the output: `text` (the cleaned text) and the numeric `label`. */
  datatype CleanRecord = CleanRecord(text: string, rating: int)

  /** The row a data frame row becomes, if it survives both filters. */
  function CleanRow(row: Row): Option<CleanRecord> {
    var cleaned := CleanText(row.text);
    if |cleaned| <= MinLength then None
    else match LabelMap(row.rating)
      case None => None
      case Some(n) => Some(CleanRecord(cleaned, n))
  }

  /** A row survives exactly when its cleaned text is longer than `MinLength` and its
      label is one of `4*`..`1*`; the surviving record holds that cleaned text, free of
      blank lines, double spaces and outer whitespace, and a rating from 1 to 4. */
  lemma CleanRowFacts(row: Row)
    ensures CleanRow(row).Some? <==> |CleanText(row.text)| > MinLength && LabelMap(row.rating).Some?
    ensures CleanRow(row).Some? ==>
      var rec := CleanRow(row).value;
      && rec.text == CleanText(row.text) && |rec.text| > MinLength && 1 <= rec.rating <= 4
      && NoDouble(rec.text, '\n') && NoDouble(rec.text, ' ') && Trimmed(rec.text)
  {
    var t := CleanText(row.text);
    CleanTextShape(row.text);
    if CleanRow(row).Some? {
      assert CleanRow(row).value == CleanRecord(t, LabelMap(row.rating).value);
    }
  }

  /** Lines 40-53 over the whole frame. */
  function CleanRows(rows: seq<Row>): seq<CleanRecord> {
    FilterMap(rows, CleanRow)
  }

  /** The output records are exactly those of the surviving rows, in row order. */
  lemma CleanRowsMembers(rows: seq<Row>, more: seq<Row>)
    ensures forall rec :: rec in CleanRows(rows) <==> exists row :: row in rows && CleanRow(row) == Some(rec)
    ensures CleanRows(rows + more) == CleanRows(rows) + CleanRows(more)
  {
    FilterMapMembers(rows, CleanRow);
    FilterMapAppend(rows, more, CleanRow);
  }
}
