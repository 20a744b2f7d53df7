/** `merger.py`: the old and the new training data are concatenated, and only the first
    item of each `(text, label)` pair is kept, in order. */
module Merger {
  import opened Values
  import opened Dicts

  /** A JSON object of the training data: its fields by name. */
  datatype Item = Item(fields: map<string, Value>)

  /** `(item['text'], item['label'])`, or `None` where a field is missing and the script
      stops with a `KeyError`. */
  function KeyOf(item: Item): Option<(Value, Value)> {
    if "text" in item.fields && "label" in item.fields
    then Some((item.fields["text"], item.fields["label"]))
    else None
  }

  /** The deduplicated data: the first item of each key of `oldData + newData`. */
  function Merged(oldData: seq<Item>, newData: seq<Item>): seq<Item> {
    DedupFrom(oldData + newData, KeyOf, {})
  }

  /** Every item has both fields. */
  predicate AllKeyed(s: seq<Item>) {
    forall j :: 0 <= j < |s| ==> KeyOf(s[j]).Some?
  }

  lemma AllKeyedSnoc(s: seq<Item>, i: nat)
    requires i < |s| && AllKeyed(s[..i]) && KeyOf(s[i]).Some?
    ensures AllKeyed(s[..i + 1])
  {
    var t := s[..i + 1];
    forall j | 0 <= j <= i ensures KeyOf(t[j]).Some? {
      if j < i {
        assert t[j] == s[..i][j];
      }
    }
  }

  lemma AllKeyedMembers(s: seq<Item>)
    requires AllKeyed(s)
    ensures !exists item :: item in s && KeyOf(item).None?
  {
    forall item | item in s ensures KeyOf(item).Some? {
      var j :| 0 <= j < |s| && s[j] == item;
    }
  }

  /** The script: `None` when an item lacks `text` or `label`, otherwise the merged data. */
  method Merge(oldData: seq<Item>, newData: seq<Item>) returns (r: Option<seq<Item>>)
    ensures r.None? <==> exists item :: item in oldData + newData && KeyOf(item).None?
    ensures r.Some? ==> r.value == Merged(oldData, newData)
  {
    var combined := oldData + newData;
    var seen: set<Option<(Value, Value)>> := {};
    var deduplicated: seq<Item> := [];
    for i := 0 to |combined|
      invariant AllKeyed(combined[..i])
      invariant deduplicated + DedupFrom(combined[i..], KeyOf, seen) == Merged(oldData, newData)
      invariant seen == KeySet(deduplicated, KeyOf)
    {
      var item := combined[i];
      var key := KeyOf(item);
      if key.None? {
        assert item in combined;
        return None;
      }
      AllKeyedSnoc(combined, i);
      seen, deduplicated := KeepFirst(combined, i, seen, deduplicated);
    }
    assert combined[..|combined|] == combined;
    AllKeyedMembers(combined);
    r := Some(deduplicated);
  }

  /** One pass of the loop over a keyed item: it is kept when its key is new. */
  method KeepFirst(combined: seq<Item>, i: nat, seen: set<Option<(Value, Value)>>, deduplicated: seq<Item>)
    returns (seen': set<Option<(Value, Value)>>, deduplicated': seq<Item>)
    requires i < |combined| && KeyOf(combined[i]).Some? && seen == KeySet(deduplicated, KeyOf)
    ensures deduplicated' == deduplicated + (if KeyOf(combined[i]) in seen then [] else [combined[i]])
    ensures seen' == seen + {KeyOf(combined[i])}
    ensures seen' == KeySet(deduplicated', KeyOf)
    ensures deduplicated' + DedupFrom(combined[i + 1..], KeyOf, seen') == deduplicated + DedupFrom(combined[i..], KeyOf, seen)
  {
    var item, key := combined[i], KeyOf(combined[i]);
    MergeStep(combined, i, seen, deduplicated);
    seen', deduplicated' := seen, deduplicated;
    if key !in seen {
      deduplicated' := deduplicated + [item];
      seen' := seen + {key};
    }
  }

  lemma MergeStep(combined: seq<Item>, i: nat, seen: set<Option<(Value, Value)>>, deduplicated: seq<Item>)
    requires i < |combined| && seen == KeySet(deduplicated, KeyOf)
    ensures var item, key := combined[i], KeyOf(combined[i]);
      && DedupFrom(combined[i..], KeyOf, seen)
        == (if key in seen then [] else [item]) + DedupFrom(combined[i + 1..], KeyOf, seen + {key})
      && (key !in seen ==> seen + {key} == KeySet(deduplicated + [item], KeyOf))
  {
    assert combined[i..][1..] == combined[i + 1..];
    var item, key := combined[i], KeyOf(combined[i]);
    if key in seen {
      assert seen + {key} == seen;
    } else {
      assert KeySet(deduplicated + [item], KeyOf) == KeySet(deduplicated, KeyOf) + {key} by {
        assert forall x :: x in deduplicated + [item] <==> x in deduplicated || x == item;
      }
    }
  }

  /** No two kept items share a `(text, label)` key. */
  lemma MergedDistinct(oldData: seq<Item>, newData: seq<Item>)
    ensures DistinctBy(Merged(oldData, newData), KeyOf)
  {
    DedupDistinct(oldData + newData, KeyOf, {});
  }

  /** Every key of the combined data is kept, and no other. */
  lemma MergedKeys(oldData: seq<Item>, newData: seq<Item>)
    ensures KeySet(Merged(oldData, newData), KeyOf) == KeySet(oldData + newData, KeyOf)
  {
    DedupKeys(oldData + newData, KeyOf, {});
  }

  /** The kept items are a subsequence of the combined data, and each of them is the
      first item of `oldData + newData` with its key. */
  lemma MergedFirstOccurrences(oldData: seq<Item>, newData: seq<Item>)
    ensures var s, out, idx := oldData + newData, Merged(oldData, newData), KeptIndices(oldData + newData, KeyOf, {});
      && |idx| == |out|
      && (forall j :: 0 <= j < |idx| ==> out[j] == s[idx[j]])
      && (forall j1, j2 :: 0 <= j1 < j2 < |idx| ==> idx[j1] < idx[j2])
      && (forall j :: 0 <= j < |idx| ==> IsFirstUnseen(s, KeyOf, {}, idx[j]))
  {
    DedupIsSubsequence(oldData + newData, KeyOf, {});
    DedupKeepsFirstOccurrences(oldData + newData, KeyOf, {});
  }

  /** At most `len(old_data) + len(new_data)` items are kept, all of them exactly when
      no key repeats. */
  lemma MergedLength(oldData: seq<Item>, newData: seq<Item>)
    ensures |Merged(oldData, newData)| <= |oldData| + |newData|
    ensures |Merged(oldData, newData)| == |oldData| + |newData| <==> DistinctBy(oldData + newData, KeyOf)
  {
    DedupLength(oldData + newData, KeyOf, {});
  }

  /** Merging the merged data with nothing changes nothing. */
  lemma MergeIdempotent(oldData: seq<Item>, newData: seq<Item>)
    ensures Merged(Merged(oldData, newData), []) == Merged(oldData, newData)
  {
    var out := Merged(oldData, newData);
    DedupDistinct(oldData + newData, KeyOf, {});
    assert out + [] == out;
    DedupOfDistinct(out, KeyOf, {});
  }
}
