/** `chunker2.py`: like `chunker.py`, but a document of at most `ChunkSize` tokens is
    kept whole as a single record (with no minimum length), the label is `str(label)`
    stripped, and a histogram `chunk_dist` counts documents by the number of records
    each one produced; a summary is derived from the histogram. */
module ChunkerDist {
  import opened PyStr
  import opened Values
  import opened Windowing
  import Chunker

  /** One input line: the document text and its `label` field, of any JSON type. */
  datatype Entry = Entry(text: string, rating: Value)

  /** `str(entry["label"]).strip()`. */
  function EntryLabel(e: Entry): string {
    Strip(Show(e.rating))
  }

  /** The records of one document: the whole document when it fits in one window,
      otherwise the kept windows of the long-document loop. */
  function DocRecords(ids: seq<int>, rating: string, decode: seq<int> -> string): seq<Chunker.Record> {
    if |ids| <= ChunkSize then [Chunker.Record(decode(ids), rating)]
    else Chunker.DocRecords(ids, rating, decode)
  }

  /** The records of a corpus: document by document, each in window order. */
  function CorpusRecords(entries: seq<Entry>, encode: string -> seq<int>, decode: seq<int> -> string): seq<Chunker.Record> {
    if entries == [] then []
    else
      var last := entries[|entries| - 1];
      CorpusRecords(entries[..|entries| - 1], encode, decode)
      + DocRecords(encode(last.text), EntryLabel(last), decode)
  }

  /** `chunk_dist`: a `defaultdict(int)` from records-per-document to documents. */
  type Histogram = map<nat, nat>

  /** `chunk_dist[c]` as read, 0 for a missing key. */
  function Count(h: Histogram, c: nat): nat {
    if c in h then h[c] else 0
  }

  /** `chunk_dist[c] += 1`. */
  function Bump(h: Histogram, c: nat): (r: Histogram)
    ensures r.Keys == h.Keys + {c}
    ensures Count(r, c) == Count(h, c) + 1
    ensures forall d :: d != c ==> Count(r, d) == Count(h, d)
  {
    h[c := Count(h, c) + 1]
  }

  /** The histogram after the given documents: each one counted once, under the
      number of records it produced. */
  function Dist(entries: seq<Entry>, encode: string -> seq<int>, decode: seq<int> -> string): Histogram {
    if entries == [] then map[]
    else
      var last := entries[|entries| - 1];
      Bump(Dist(entries[..|entries| - 1], encode, decode), |DocRecords(encode(last.text), EntryLabel(last), decode)|)
  }

  /** The script's main loop: documents in input order, each through `ChunkDocument`. */
  method ChunkCorpusWithDist(entries: seq<Entry>, encode: string -> seq<int>, decode: seq<int> -> string)
    returns (chunked: seq<Chunker.Record>, dist: Histogram)
    ensures chunked == CorpusRecords(entries, encode, decode)
    ensures dist == Dist(entries, encode, decode)
  {
    chunked, dist := [], map[];
    for k := 0 to |entries|
      invariant chunked == CorpusRecords(entries[..k], encode, decode)
      invariant dist == Dist(entries[..k], encode, decode)
    {
      chunked, dist := ChunkDocument(chunked, dist, entries[k], encode, decode);
      CorpusStep(entries, k, encode, decode);
    }
    assert entries[..|entries|] == entries;
  }

  lemma CorpusStep(entries: seq<Entry>, k: nat, encode: string -> seq<int>, decode: seq<int> -> string)
    requires k < |entries|
    ensures var recs := DocRecords(encode(entries[k].text), EntryLabel(entries[k]), decode);
      && CorpusRecords(entries[..k + 1], encode, decode) == CorpusRecords(entries[..k], encode, decode) + recs
      && Dist(entries[..k + 1], encode, decode) == Bump(Dist(entries[..k], encode, decode), |recs|)
  {
    assert entries[..k + 1][..k] == entries[..k];
  }

  /** One pass of the main loop: appends the document's records and counts the document
      in the bucket of its record count. */
  method ChunkDocument(chunked: seq<Chunker.Record>, dist: Histogram, entry: Entry,
                       encode: string -> seq<int>, decode: seq<int> -> string)
    returns (chunked': seq<Chunker.Record>, dist': Histogram)
    ensures chunked' == chunked + DocRecords(encode(entry.text), EntryLabel(entry), decode)
    ensures dist' == Bump(dist, |DocRecords(encode(entry.text), EntryLabel(entry), decode)|)
  {
    var rating := Strip(Show(entry.rating));
    var ids := encode(entry.text);
    var totalTokens := |ids|;
    if totalTokens <= ChunkSize {
      chunked' := chunked + [Chunker.Record(decode(ids), rating)];
      dist' := Bump(dist, 1);
      return;
    }
    var count;
    chunked', count := AppendWindowsCounted(chunked, ids, rating, decode);
    if count > 0 {
      dist' := Bump(dist, count);
    } else {
      // `chunk_dist[0] += 1`, with `count == 0` here
      dist' := Bump(dist, count);
    }
  }

  /** The long-document loop: appends the kept windows' records and counts them. */
  method AppendWindowsCounted(chunked: seq<Chunker.Record>, ids: seq<int>, rating: string, decode: seq<int> -> string)
    returns (out: seq<Chunker.Record>, count: nat)
    ensures out == chunked + Chunker.DocRecords(ids, rating, decode)
    ensures count == |Chunker.DocRecords(ids, rating, decode)|
  {
    out, count := chunked, 0;
    var i := 0;
    while i < |ids|
      invariant out + Chunker.RecordsFrom(ids, rating, decode, i) == chunked + Chunker.DocRecords(ids, rating, decode)
      invariant |out| == |chunked| + count
      decreases |ids| - i
    {
      var slice := ids[i..Min(i + ChunkSize, |ids|)];
      var chunkIds := slice[..Min(ChunkSize, |slice|)];
      assert chunkIds == Window(ids, i);
      if |chunkIds| < MinChunk {
        i := i + Step;
        continue;
      }
      out := out + [Chunker.Record(decode(chunkIds), rating)];
      count := count + 1;
      i := i + Step;
    }
  }

  /** A document that fits in one window yields exactly one record, the decoded whole
      document, even below `MinChunk` tokens (an empty document included); a longer one
      always yields at least two. */
  lemma DocRecordCount(ids: seq<int>, rating: string, decode: seq<int> -> string)
    ensures |ids| <= ChunkSize ==> DocRecords(ids, rating, decode) == [Chunker.Record(decode(ids), rating)]
    ensures |ids| > ChunkSize ==> |DocRecords(ids, rating, decode)| >= 2
    ensures forall r :: r in DocRecords(ids, rating, decode) ==> r.rating == rating
  {
    Chunker.DocRecordsAreKeptWindows(ids, rating, decode);
    if |ids| > ChunkSize {
      LongDocumentKeepsTwo(|ids|);
    }
  }

  /** An empty document: `chunker.py` emits nothing for it, `chunker2.py` one record
      (counted in bucket 1, not 0). */
  lemma EmptyDocument(rating: string, decode: seq<int> -> string)
    ensures Chunker.DocRecords([], rating, decode) == []
    ensures DocRecords([], rating, decode) == [Chunker.Record(decode([]), rating)]
  {
  }

  /** The number of documents of at most `ChunkSize` tokens. */
  function ShortDocs(entries: seq<Entry>, encode: string -> seq<int>): nat {
    if entries == [] then 0
    else ShortDocs(entries[..|entries| - 1], encode)
         + (if |encode(entries[|entries| - 1].text)| <= ChunkSize then 1 else 0)
  }

  /** Bucket 0 is never incremented, and bucket 1 counts exactly the short documents. */
  lemma {:induction false} BucketsZeroAndOne(entries: seq<Entry>, encode: string -> seq<int>, decode: seq<int> -> string)
    ensures Count(Dist(entries, encode, decode), 0) == 0
    ensures Count(Dist(entries, encode, decode), 1) == ShortDocs(entries, encode)
  {
    if entries != [] {
      var last := entries[|entries| - 1];
      BucketsZeroAndOne(entries[..|entries| - 1], encode, decode);
      DocRecordCount(encode(last.text), EntryLabel(last), decode);
    }
  }

  /** `sum(f(c, chunk_dist[c]) for c in chunk_dist)`. */
  ghost function SumBy(h: Histogram, f: (nat, nat) -> nat): nat
    decreases |h|
  {
    if h == map[] then 0
    else
      var c :| c in h;
      assert |h - {c}| < |h| by {
        assert (h - {c}).Keys == h.Keys - {c};
      }
      f(c, h[c]) + SumBy(h - {c}, f)
  }

  /** The sum does not depend on the order keys are taken in. */
  lemma SumByRemove(h: Histogram, f: (nat, nat) -> nat, k: nat)
    requires k in h
    ensures SumBy(h, f) == f(k, h[k]) + SumBy(h - {k}, f)
    decreases |h|
  {
    assert exists c :: c in h && SumBy(h, f) == f(c, h[c]) + SumBy(h - {c}, f);
    var c :| c in h && SumBy(h, f) == f(c, h[c]) + SumBy(h - {c}, f);
    if c != k {
      assert (h - {c}).Keys == h.Keys - {c};
      assert (h - {k}).Keys == h.Keys - {k};
      SumByRemove(h - {c}, f, k);
      SumByRemove(h - {k}, f, c);
      assert h - {c} - {k} == h - {k} - {c};
    }
  }

  /** `chunk_dist[c] += 1` changes the sum by the change of bucket `c`'s term. */
  lemma SumByBump(h: Histogram, f: (nat, nat) -> nat, c: nat)
    requires f(c, 0) == 0
    ensures SumBy(Bump(h, c), f) + f(c, Count(h, c)) == SumBy(h, f) + f(c, Count(h, c) + 1)
  {
    var r := Bump(h, c);
    SumByRemove(r, f, c);
    if c in h {
      SumByRemove(h, f, c);
      assert r - {c} == h - {c};
    } else {
      assert r - {c} == h;
    }
  }

  /** The summary's weights: documents, records, and documents with several records. */
  function DocsIn(c: nat, docs: nat): nat { docs }
  /** `c * docs`, written as repeated addition to keep the histogram proofs linear. */
  function RecordsIn(c: nat, docs: nat): (r: nat)
    ensures r == c * docs
  {
    if docs == 0 then 0 else RecordsIn(c, docs - 1) + c
  }
  function MultiDocsIn(c: nat, docs: nat): nat { if c > 1 then docs else 0 }

  /** The bucket values sum to the number of documents. */
  lemma {:induction false} HistogramDocs(entries: seq<Entry>, encode: string -> seq<int>, decode: seq<int> -> string)
    ensures SumBy(Dist(entries, encode, decode), DocsIn) == |entries|
  {
    if entries != [] {
      var init, last := entries[..|entries| - 1], entries[|entries| - 1];
      HistogramDocs(init, encode, decode);
      var c := |DocRecords(encode(last.text), EntryLabel(last), decode)|;
      SumByBump(Dist(init, encode, decode), DocsIn, c);
    }
  }

  /** The sum over buckets of `c * chunk_dist[c]` is the number of records written. */
  lemma {:induction false} HistogramRecords(entries: seq<Entry>, encode: string -> seq<int>, decode: seq<int> -> string)
    ensures SumBy(Dist(entries, encode, decode), RecordsIn) == |CorpusRecords(entries, encode, decode)|
  {
    if entries != [] {
      var init, last := entries[..|entries| - 1], entries[|entries| - 1];
      HistogramRecords(init, encode, decode);
      var h := Dist(init, encode, decode);
      var c := |DocRecords(encode(last.text), EntryLabel(last), decode)|;
      assert |CorpusRecords(entries, encode, decode)| == |CorpusRecords(init, encode, decode)| + c;
      assert Dist(entries, encode, decode) == Bump(h, c);
      SumByBump(h, RecordsIn, c);
      assert RecordsIn(c, Count(h, c) + 1) == RecordsIn(c, Count(h, c)) + c;
    }
  }

  /** The printed summary: `total_docs`, `single_chunk`, `multi_chunk` and `skipped`. */
  datatype Summary = Summary(totalDocs: nat, singleChunk: nat, multiChunk: nat, skipped: nat)

  ghost function Summarize(h: Histogram): Summary {
    Summary(SumBy(h, DocsIn), Count(h, 1), SumBy(h, MultiDocsIn), Count(h, 0))
  }

  /** Every document falls in exactly one of the summary's three classes. */
  lemma SummaryBalanced(h: Histogram)
    ensures Summarize(h).totalDocs == Summarize(h).singleChunk + Summarize(h).multiChunk + Summarize(h).skipped
    decreases |h|
  {
    if h != map[] {
      var k :| k in h;
      SumByRemove(h, DocsIn, k);
      SumByRemove(h, MultiDocsIn, k);
      assert (h - {k}).Keys == h.Keys - {k};
      SummaryBalanced(h - {k});
    }
  }

  /** The summary of a run: all documents are counted, the single-chunk ones are the
      short documents, the multi-chunk ones the long documents, and none is skipped. */
  lemma RunSummary(entries: seq<Entry>, encode: string -> seq<int>, decode: seq<int> -> string)
    ensures var s := Summarize(Dist(entries, encode, decode));
      && s.totalDocs == |entries|
      && s.singleChunk == ShortDocs(entries, encode)
      && s.multiChunk == |entries| - ShortDocs(entries, encode)
      && s.skipped == 0
  {
    HistogramDocs(entries, encode, decode);
    BucketsZeroAndOne(entries, encode, decode);
    SummaryBalanced(Dist(entries, encode, decode));
  }
}
