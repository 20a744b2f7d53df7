/** `chunker.py`: every document is tokenized and cut into overlapping windows of at
    most `ChunkSize` tokens, windows of fewer than `MinChunk` tokens are skipped (there
    is no short-document fast path), and each kept window becomes one record carrying
    the document's stripped rating. The tokenizer is a pair of functions passed in. */
module Chunker {
  import opened PyStr
  import opened Values
  import opened Windowing

  /** One input line: the document text and its `label` field, of any JSON type. */
  datatype Entry = Entry(text: string, rating: Value)

  /** `entry["label"].strip()`, for a string label. */
  function EntryLabel(e: Entry): string {
    if e.rating.Str? then Strip(e.rating.s) else ""
  }

  /** One output line. */
  datatype Record = Record(text: string, rating: string)

  /** The records the inner loop appends from offset `i` on. */
  function RecordsFrom(ids: seq<int>, rating: string, decode: seq<int> -> string, i: nat): seq<Record>
    decreases |ids| - i
  {
    if i >= |ids| then []
    else
      (if |Window(ids, i)| < MinChunk then [] else [Record(decode(Window(ids, i)), rating)])
      + RecordsFrom(ids, rating, decode, i + Step)
  }

  /** The records of one document with token ids `ids`. */
  function DocRecords(ids: seq<int>, rating: string, decode: seq<int> -> string): seq<Record> {
    RecordsFrom(ids, rating, decode, 0)
  }

  /** The records of a corpus: document by document, each in window order. */
  function CorpusRecords(entries: seq<Entry>, encode: string -> seq<int>, decode: seq<int> -> string): seq<Record> {
    if entries == [] then []
    else
      var last := entries[|entries| - 1];
      CorpusRecords(entries[..|entries| - 1], encode, decode)
      + DocRecords(encode(last.text), EntryLabel(last), decode)
  }

  /** The first `k` entries have string labels. */
  predicate StringLabels(entries: seq<Entry>, k: nat)
    requires k <= |entries|
  {
    forall j :: 0 <= j < k ==> entries[j].rating.Str?
  }

  /** The script's main loop: documents in input order, each through `AppendWindows`. */
  method ChunkCorpus(entries: seq<Entry>, encode: string -> seq<int>, decode: seq<int> -> string)
    returns (r: Option<seq<Record>>)
    ensures r.None? <==> exists k :: 0 <= k < |entries| && !entries[k].rating.Str?
    ensures r.Some? ==> r.value == CorpusRecords(entries, encode, decode)
  {
    var chunked := [];
    for k := 0 to |entries|
      invariant StringLabels(entries, k)
      invariant chunked == CorpusRecords(entries[..k], encode, decode)
    {
      if !entries[k].rating.Str? {
        return None;
      }
      chunked := ChunkEntry(entries, k, chunked, encode, decode);
    }
    assert entries[..|entries|] == entries;
    r := Some(chunked);
  }

  /** One pass of the main loop over an entry with a string label. */
  method ChunkEntry(entries: seq<Entry>, k: nat, chunked: seq<Record>, encode: string -> seq<int>, decode: seq<int> -> string)
    returns (out: seq<Record>)
    requires k < |entries| && entries[k].rating.Str?
    requires chunked == CorpusRecords(entries[..k], encode, decode)
    ensures out == CorpusRecords(entries[..k + 1], encode, decode)
  {
    var entry := entries[k];
    var rating := Strip(entry.rating.s);
    var ids := encode(entry.text);
    out := AppendWindows(chunked, ids, rating, decode);
    assert entries[..k + 1][..k] == entries[..k];
  }

  /** The inner loop over `range(0, len(ids), Step)`: appends one record per window of
      at least `MinChunk` tokens to `chunked`. */
  method AppendWindows(chunked: seq<Record>, ids: seq<int>, rating: string, decode: seq<int> -> string)
    returns (out: seq<Record>)
    ensures out == chunked + DocRecords(ids, rating, decode)
  {
    out := chunked;
    var i := 0;
    while i < |ids|
      invariant out + RecordsFrom(ids, rating, decode, i) == chunked + DocRecords(ids, rating, decode)
      decreases |ids| - i
    {
      var chunkIds := ids[i..Min(i + ChunkSize, |ids|)];
      if |chunkIds| < MinChunk {
        i := i + Step;
        continue;
      }
      out := out + [Record(decode(chunkIds), rating)];
      i := i + Step;
    }
  }

  lemma {:induction false} RecordsFromKeptWindows(ids: seq<int>, rating: string, decode: seq<int> -> string, i: nat)
    ensures var recs, ks := RecordsFrom(ids, rating, decode, i), KeptFrom(i, |ids|);
      |recs| == |ks| && forall j :: 0 <= j < |ks| ==>
        ks[j] + MinChunk <= |ids| && recs[j] == Record(decode(Window(ids, ks[j])), rating)
    decreases |ids| - i
  {
    if i < |ids| {
      RecordsFromKeptWindows(ids, rating, decode, i + Step);
    }
  }

  /** A document yields one record per kept window, in window order: the record of the
      j-th kept window holds the decoded slice `ids[o:o + ChunkSize]` at that window's
      offset `o`, which has between `MinChunk` and `ChunkSize` tokens, and the rating. */
  lemma DocRecordsAreKeptWindows(ids: seq<int>, rating: string, decode: seq<int> -> string)
    ensures |DocRecords(ids, rating, decode)| == |KeptStarts(|ids|)|
    ensures forall j :: 0 <= j < |KeptStarts(|ids|)| ==>
      && KeptStarts(|ids|)[j] + MinChunk <= |ids|
      && MinChunk <= |Window(ids, KeptStarts(|ids|)[j])| <= ChunkSize
      && DocRecords(ids, rating, decode)[j] == Record(decode(Window(ids, KeptStarts(|ids|)[j])), rating)
  {
    RecordsFromKeptWindows(ids, rating, decode, 0);
  }

  /** Records come in document order: the records of a concatenated corpus are those of
      its first part followed by those of its second. */
  lemma {:induction false} CorpusRecordsAppend(a: seq<Entry>, b: seq<Entry>, encode: string -> seq<int>, decode: seq<int> -> string)
    ensures CorpusRecords(a + b, encode, decode) == CorpusRecords(a, encode, decode) + CorpusRecords(b, encode, decode)
    decreases |b|
  {
    if b != [] {
      var b' := b[..|b| - 1];
      assert (a + b)[..|a + b| - 1] == a + b';
      CorpusRecordsAppend(a, b', encode, decode);
    } else {
      assert a + b == a;
    }
  }

  /** Every record carries the stripped rating of some input document. */
  lemma {:induction false} CorpusLabels(entries: seq<Entry>, encode: string -> seq<int>, decode: seq<int> -> string)
    ensures forall r :: r in CorpusRecords(entries, encode, decode) ==>
      exists e :: e in entries && r.rating == EntryLabel(e)
  {
    if entries != [] {
      var init, last := entries[..|entries| - 1], entries[|entries| - 1];
      CorpusLabels(init, encode, decode);
      var ids := encode(last.text);
      DocRecordsAreKeptWindows(ids, EntryLabel(last), decode);
      forall r | r in CorpusRecords(entries, encode, decode)
        ensures exists e :: e in entries && r.rating == EntryLabel(e)
      {
        if r in CorpusRecords(init, encode, decode) {
          var e :| e in init && r.rating == EntryLabel(e);
          assert e in entries;
        } else {
          assert r in DocRecords(ids, EntryLabel(last), decode);
          assert last in entries;
        }
      }
    }
  }
}
