/** `counter.py`: the labels of a JSON-lines file, tallied with `dict(Counter(labels))`.
    The dictionary lists each label once, in order of first appearance. */
module LabelCounter {
  import opened Values
  import opened Dicts

  /** `[item['label'] for item in data]`, or `None` when an item has no `label`
      (a `KeyError`). */
  function Labels(data: seq<map<string, Value>>): (r: Option<seq<Value>>)
    ensures r.Some? <==> forall i :: 0 <= i < |data| ==> "label" in data[i]
    ensures r.Some? ==> |r.value| == |data| && forall i :: 0 <= i < |data| ==> r.value[i] == data[i]["label"]
  {
    if data == [] then Some([])
    else if "label" !in data[0] then None
    else
      match Labels(data[1..])
      case None => None
      case Some(rest) => Some([data[0]["label"]] + rest)
  }

  /** `dict(Counter(labels))`: each label counted as it is met. */
  function Tally(labels: seq<Value>): seq<(Value, int)> {
    if labels == [] then []
    else
      var d, x := Tally(labels[..|labels| - 1]), labels[|labels| - 1];
      Put(d, x, Get(d, x, 0) + 1)
  }

  /** The sum of the counts. */
  function Total(d: seq<(Value, int)>): int {
    if d == [] then 0 else d[0].1 + Total(d[1..])
  }

  lemma {:induction false} TotalPut(d: seq<(Value, int)>, k: Value, v: int)
    ensures Total(Put(d, k, v)) + Get(d, k, 0) == Total(d) + v
  {
    if d != [] && d[0].0 != k {
      TotalPut(d[1..], k, v);
    }
  }

  /** The tally maps each label to the number of times it occurs; its keys are the
      distinct labels in order of first appearance. */
  lemma {:induction false} TallyCounts(labels: seq<Value>)
    ensures DistinctKeys(Tally(labels))
    ensures Keys(Tally(labels)) == DedupFrom(labels, Id, {})
    ensures forall l :: Get(Tally(labels), l, 0) == multiset(labels)[l]
  {
    if labels != [] {
      var init, x := labels[..|labels| - 1], labels[|labels| - 1];
      TallyCounts(init);
      assert labels == init + [x];
      TallyStepKeys(init, x);
      var d := Tally(init);
      forall l ensures Get(Tally(labels), l, 0) == multiset(labels)[l] {
        PutGet(d, x, Get(d, x, 0) + 1, l, 0);
      }
    }
  }

  lemma TallyStepKeys(init: seq<Value>, x: Value)
    requires DistinctKeys(Tally(init)) && Keys(Tally(init)) == DedupFrom(init, Id, {})
    ensures DistinctKeys(Tally(init + [x])) && Keys(Tally(init + [x])) == DedupFrom(init + [x], Id, {})
  {
    var d, c := Tally(init), Get(Tally(init), x, 0) + 1;
    assert (init + [x])[..|init + [x]| - 1] == init;
    assert Tally(init + [x]) == Put(d, x, c);
    PutDistinct(d, x, c);
    PutKeys(d, x, c);
    DedupSnoc(init, x, Id, {});
    SeenIff(init, x);
  }

  /** A label was met before exactly when the tally so far has it as a key. */
  lemma SeenIff(init: seq<Value>, x: Value)
    requires Keys(Tally(init)) == DedupFrom(init, Id, {})
    ensures x in Keys(Tally(init)) <==> x in {} + KeySet(init, Id)
  {
    var kept := DedupFrom(init, Id, {});
    DedupKeys(init, Id, {});
    assert x in kept <==> x in KeySet(kept, Id) by {
      if x in kept {
        assert Id(x) == x;
      }
    }
  }

  /** Every count is at least 1, and the keys are exactly the labels present. */
  lemma TallyKeys(labels: seq<Value>)
    ensures forall l :: l in Keys(Tally(labels)) <==> l in labels
    ensures forall i :: 0 <= i < |Tally(labels)| ==> Tally(labels)[i].1 >= 1
  {
    var d := Tally(labels);
    TallyCounts(labels);
    DedupKeys(labels, Id, {});
    forall l ensures l in Keys(d) <==> l in labels {
      assert l in Keys(d) <==> l in KeySet(DedupFrom(labels, Id, {}), Id);
    }
    forall i | 0 <= i < |d| ensures d[i].1 >= 1 {
      GetAt(d, i, 0);
      assert d[i].0 in Keys(d);
    }
  }

  /** The counts sum to the number of records read. */
  lemma {:induction false} TallyTotal(labels: seq<Value>)
    ensures Total(Tally(labels)) == |labels|
  {
    if labels != [] {
      var init, x := labels[..|labels| - 1], labels[|labels| - 1];
      TallyTotal(init);
      var d := Tally(init);
      var c := Get(d, x, 0);
      TotalPut(d, x, c + 1);
    }
  }
}
