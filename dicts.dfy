/** Python dictionaries, which iterate in insertion order, as sequences of key/value
    pairs; and the order-preserving "keep the first item of each key" filter that
    both `merger.py` (a seen-set loop) and pandas' `unique()` perform. */
module Dicts {

  function Keys<K, V>(d: seq<(K, V)>): (r: seq<K>)
    ensures |r| == |d|
    ensures forall i :: 0 <= i < |d| ==> r[i] == d[i].0
  {
    seq(|d|, i requires 0 <= i < |d| => d[i].0)
  }

  predicate DistinctKeys<K(==), V>(d: seq<(K, V)>) {
    forall i, j :: 0 <= i < j < |d| ==> d[i].0 != d[j].0
  }

  /** `d.get(k, default)`. */
  function Get<K(==), V>(d: seq<(K, V)>, k: K, default: V): V {
    if d == [] then default
    else if d[0].0 == k then d[0].1
    else Get(d[1..], k, default)
  }

  /** `d[k] = v`: an existing key keeps its place and takes the new value; a new key
      goes to the end. */
  function Put<K(==), V>(d: seq<(K, V)>, k: K, v: V): (r: seq<(K, V)>)
    ensures |r| == if k in Keys(d) then |d| else |d| + 1
  {
    if d == [] then [(k, v)]
    else if d[0].0 == k then
      assert k in Keys(d);
      [(k, v)] + d[1..]
    else
      assert Keys(d) == [d[0].0] + Keys(d[1..]);
      [d[0]] + Put(d[1..], k, v)
  }

  lemma KeysCons<K, V>(x: (K, V), d: seq<(K, V)>)
    ensures Keys([x] + d) == [x.0] + Keys(d)
  {
  }

  /** The keys after `d[k] = v`: unchanged if `k` was there, `k` appended otherwise. */
  lemma {:induction false} PutKeys<K, V>(d: seq<(K, V)>, k: K, v: V)
    ensures Keys(Put(d, k, v)) == if k in Keys(d) then Keys(d) else Keys(d) + [k]
  {
    if d == [] {
      KeysCons((k, v), d);
    } else {
      assert d == [d[0]] + d[1..];
      KeysCons(d[0], d[1..]);
      if d[0].0 == k {
        KeysCons((k, v), d[1..]);
      } else {
        var rest := Put(d[1..], k, v);
        PutKeys(d[1..], k, v);
        KeysCons(d[0], rest);
        assert k in Keys(d) <==> k in Keys(d[1..]);
        if k !in Keys(d) {
          assert [d[0].0] + (Keys(d[1..]) + [k]) == Keys(d) + [k];
        }
      }
    }
  }

  /** `d[k] = v` keeps the keys distinct. */
  lemma PutDistinct<K, V>(d: seq<(K, V)>, k: K, v: V)
    requires DistinctKeys(d)
    ensures DistinctKeys(Put(d, k, v))
  {
    var r := Put(d, k, v);
    PutKeys(d, k, v);
    forall i, j | 0 <= i < j < |r| ensures r[i].0 != r[j].0 {
      assert Keys(r)[i] == r[i].0 && Keys(r)[j] == r[j].0;
      if j < |d| {
        assert Keys(d)[i] == d[i].0 && Keys(d)[j] == d[j].0;
      } else {
        assert Keys(d)[i] == d[i].0;
      }
    }
  }

  /** After `d[k] = v`, `k` maps to `v` and every other key to what it mapped to. */
  lemma {:induction false} PutGet<K, V>(d: seq<(K, V)>, k: K, v: V, k': K, dflt: V)
    ensures Get(Put(d, k, v), k', dflt) == if k' == k then v else Get(d, k', dflt)
  {
    if d != [] && d[0].0 != k {
      PutGet(d[1..], k, v, k', dflt);
    }
  }

  lemma {:induction false} GetPresent<K, V>(d: seq<(K, V)>, k: K, dflt: V)
    requires k in Keys(d)
    ensures exists i :: 0 <= i < |d| && d[i].0 == k && Get(d, k, dflt) == d[i].1
  {
    if d[0].0 != k {
      assert Keys(d) == [d[0].0] + Keys(d[1..]);
      GetPresent(d[1..], k, dflt);
      var i :| 0 <= i < |d[1..]| && d[1..][i].0 == k && Get(d[1..], k, dflt) == d[1..][i].1;
      assert d[i + 1].0 == k;
    }
  }

  lemma {:induction false} GetAbsent<K, V>(d: seq<(K, V)>, k: K, dflt: V)
    requires k !in Keys(d)
    ensures Get(d, k, dflt) == dflt
  {
    if d != [] {
      assert Keys(d) == [d[0].0] + Keys(d[1..]);
      GetAbsent(d[1..], k, dflt);
    }
  }

  /** The keys an item sequence holds. */
  ghost function KeySet<T, K>(s: seq<T>, key: T -> K): set<K> {
    set x | x in s :: key(x)
  }

  /** No two items share a key. */
  predicate DistinctBy<T, K(==)>(s: seq<T>, key: T -> K) {
    forall i, j :: 0 <= i < j < |s| ==> key(s[i]) != key(s[j])
  }

  /** The items of `s`, in order, whose key is neither in `seen` nor the key of an
      earlier item: the rest of a seen-set loop started with `seen`. */
  function DedupFrom<T, K(==)>(s: seq<T>, key: T -> K, seen: set<K>): seq<T> {
    if s == [] then []
    else if key(s[0]) in seen then DedupFrom(s[1..], key, seen)
    else [s[0]] + DedupFrom(s[1..], key, seen + {key(s[0])})
  }

  /** Positions in `s` of the items `DedupFrom` keeps. */
  function KeptIndices<T, K(==)>(s: seq<T>, key: T -> K, seen: set<K>): (idx: seq<nat>)
    ensures forall j :: 0 <= j < |idx| ==> idx[j] < |s|
  {
    if s == [] then []
    else if key(s[0]) in seen then Shift(KeptIndices(s[1..], key, seen))
    else [0] + Shift(KeptIndices(s[1..], key, seen + {key(s[0])}))
  }

  function Shift(idx: seq<nat>): (r: seq<nat>)
    ensures |r| == |idx|
    ensures forall j :: 0 <= j < |idx| ==> r[j] == idx[j] + 1
  {
    seq(|idx|, j requires 0 <= j < |idx| => idx[j] + 1)
  }

  /** The kept items carry pairwise distinct keys, none of them in `seen`. */
  lemma {:induction false} DedupDistinct<T, K>(s: seq<T>, key: T -> K, seen: set<K>)
    ensures DistinctBy(DedupFrom(s, key, seen), key)
    ensures KeySet(DedupFrom(s, key, seen), key) !! seen
  {
    if s != [] {
      var k := key(s[0]);
      if k in seen {
        DedupDistinct(s[1..], key, seen);
      } else {
        var rest := DedupFrom(s[1..], key, seen + {k});
        DedupDistinct(s[1..], key, seen + {k});
        var out := [s[0]] + rest;
        forall j | 1 <= j < |out| ensures key(out[j]) != k {
          assert key(rest[j - 1]) in KeySet(rest, key);
        }
        forall x | x in out ensures key(x) !in seen {
          if x != s[0] { assert key(x) in KeySet(rest, key); }
        }
      }
    }
  }

  /** Every key of `s` outside `seen` is kept, and no other key. */
  lemma {:induction false} DedupKeys<T, K>(s: seq<T>, key: T -> K, seen: set<K>)
    ensures KeySet(DedupFrom(s, key, seen), key) == KeySet(s, key) - seen
  {
    if s != [] {
      var k := key(s[0]);
      assert KeySet(s, key) == {k} + KeySet(s[1..], key) by {
        assert s == [s[0]] + s[1..];
      }
      if k in seen {
        DedupKeys(s[1..], key, seen);
      } else {
        DedupKeys(s[1..], key, seen + {k});
        var rest := DedupFrom(s[1..], key, seen + {k});
        assert KeySet([s[0]] + rest, key) == {k} + KeySet(rest, key);
      }
    }
  }

  predicate Increasing(idx: seq<nat>) {
    forall j1, j2 :: 0 <= j1 < j2 < |idx| ==> idx[j1] < idx[j2]
  }

  lemma ShiftIncreasing(idx: seq<nat>)
    requires Increasing(idx)
    ensures Increasing(Shift(idx)) && Increasing([0] + Shift(idx))
  {
    var r := [0] + Shift(idx);
    forall j1, j2 | 0 <= j1 < j2 < |r| ensures r[j1] < r[j2] {
      if j1 > 0 {
        assert idx[j1 - 1] < idx[j2 - 1];
      }
    }
  }

  /** The positions of the kept items strictly increase. */
  lemma {:induction false} KeptIndicesIncrease<T, K>(s: seq<T>, key: T -> K, seen: set<K>)
    ensures Increasing(KeptIndices(s, key, seen))
  {
    if s != [] {
      var k := key(s[0]);
      if k in seen {
        KeptIndicesIncrease(s[1..], key, seen);
        ShiftIncreasing(KeptIndices(s[1..], key, seen));
      } else {
        KeptIndicesIncrease(s[1..], key, seen + {k});
        ShiftIncreasing(KeptIndices(s[1..], key, seen + {k}));
      }
    }
  }

  /** The kept items are a subsequence of `s`: they sit at strictly increasing positions. */
  lemma {:induction false} DedupIsSubsequence<T, K>(s: seq<T>, key: T -> K, seen: set<K>)
    ensures var out, idx := DedupFrom(s, key, seen), KeptIndices(s, key, seen);
      && |idx| == |out|
      && (forall j :: 0 <= j < |idx| ==> out[j] == s[idx[j]])
      && (forall j1, j2 :: 0 <= j1 < j2 < |idx| ==> idx[j1] < idx[j2])
  {
    KeptIndicesIncrease(s, key, seen);
    if s != [] {
      var k := key(s[0]);
      var seen' := if k in seen then seen else seen + {k};
      DedupIsSubsequence(s[1..], key, seen');
      var rest, ridx := DedupFrom(s[1..], key, seen'), KeptIndices(s[1..], key, seen');
      var out, idx := DedupFrom(s, key, seen), KeptIndices(s, key, seen);
      var off := if k in seen then 0 else 1;
      assert out[off..] == rest && idx[off..] == Shift(ridx);
      forall j | off <= j < |idx| ensures out[j] == s[idx[j]] {
        assert out[j] == rest[j - off];
        assert s[idx[j]] == s[1..][ridx[j - off]];
      }
    }
  }

  /** Position `p` holds the first item of `s` with its key, and that key is not in `seen`. */
  predicate IsFirstUnseen<T, K(==)>(s: seq<T>, key: T -> K, seen: set<K>, p: nat)
    requires p < |s|
  {
    key(s[p]) !in seen && forall i :: 0 <= i < p ==> key(s[i]) != key(s[p])
  }

  /** Each kept item is the first item of `s` with its key, and its key is not in `seen`. */
  lemma {:induction false} DedupKeepsFirstOccurrences<T, K>(s: seq<T>, key: T -> K, seen: set<K>)
    ensures forall j :: 0 <= j < |KeptIndices(s, key, seen)| ==>
      IsFirstUnseen(s, key, seen, KeptIndices(s, key, seen)[j])
  {
    if s != [] {
      var k := key(s[0]);
      var seen' := if k in seen then seen else seen + {k};
      DedupKeepsFirstOccurrences(s[1..], key, seen');
      var ridx := KeptIndices(s[1..], key, seen');
      var idx := KeptIndices(s, key, seen);
      var off := if k in seen then 0 else 1;
      assert idx == if k in seen then Shift(ridx) else [0] + Shift(ridx);
      forall j | off <= j < |idx| ensures IsFirstUnseen(s, key, seen, idx[j]) {
        var t := ridx[j - off];
        assert IsFirstUnseen(s[1..], key, seen', t);
        assert idx[j] == t + 1 && s[idx[j]] == s[1..][t];
        forall i | 0 <= i < idx[j] ensures key(s[i]) != key(s[idx[j]]) {
          if i > 0 { assert s[i] == s[1..][i - 1]; }
        }
      }
    }
  }

  /** Keeping the first item of each key drops something exactly when `s` repeats a
      key (or holds a key of `seen`). */
  lemma {:induction false} DedupLength<T, K>(s: seq<T>, key: T -> K, seen: set<K>)
    ensures |DedupFrom(s, key, seen)| <= |s|
    ensures |DedupFrom(s, key, seen)| == |s| <==> DistinctBy(s, key) && KeySet(s, key) !! seen
  {
    if s != [] {
      var k := key(s[0]);
      assert KeySet(s, key) == {k} + KeySet(s[1..], key) by {
        assert s == [s[0]] + s[1..];
      }
      if k in seen {
        DedupLength(s[1..], key, seen);
      } else {
        DedupLength(s[1..], key, seen + {k});
        var tail := s[1..];
        if DistinctBy(tail, key) && KeySet(tail, key) !! seen + {k} {
          forall i, j | 0 <= i < j < |s| ensures key(s[i]) != key(s[j]) {
            assert s[j] == tail[j - 1];
            if i > 0 { assert s[i] == tail[i - 1]; }
            else { assert key(tail[j - 1]) in KeySet(tail, key); }
          }
        }
        if DistinctBy(s, key) && KeySet(s, key) !! seen {
          forall x | x in tail ensures key(x) != k {
            var j :| 0 <= j < |tail| && tail[j] == x;
            assert s[j + 1] == x;
          }
        }
      }
    }
  }

  /** A sequence whose keys are already distinct (and outside `seen`) is kept whole. */
  lemma {:induction false} DedupOfDistinct<T, K>(s: seq<T>, key: T -> K, seen: set<K>)
    requires DistinctBy(s, key) && KeySet(s, key) !! seen
    ensures DedupFrom(s, key, seen) == s
  {
    if s != [] {
      var k := key(s[0]);
      assert key(s[0]) in KeySet(s, key);
      forall x | x in s[1..] ensures key(x) != k && key(x) !in seen {
        var j :| 0 <= j < |s[1..]| && s[1..][j] == x;
        assert s[j + 1] == x;
      }
      DedupOfDistinct(s[1..], key, seen + {k});
    }
  }

  /** In a dictionary with distinct keys, looking up the key of an entry finds that entry. */
  lemma {:induction false} GetAt<K, V>(d: seq<(K, V)>, i: nat, dflt: V)
    requires DistinctKeys(d) && i < |d|
    ensures Get(d, d[i].0, dflt) == d[i].1
  {
    if i > 0 {
      assert d[0].0 != d[i].0;
      GetAt(d[1..], i - 1, dflt);
    }
  }

  /** Appending one item to the input of the filter appends it to the output exactly
      when its key is new. */
  lemma {:induction false} DedupSnoc<T, K>(s: seq<T>, x: T, key: T -> K, seen: set<K>)
    ensures DedupFrom(s + [x], key, seen)
      == DedupFrom(s, key, seen) + (if key(x) in seen + KeySet(s, key) then [] else [x])
  {
    if s == [] {
      assert [x][1..] == [];
    } else {
      var k := key(s[0]);
      assert (s + [x])[1..] == s[1..] + [x];
      assert KeySet(s, key) == {k} + KeySet(s[1..], key) by {
        assert s == [s[0]] + s[1..];
      }
      if k in seen {
        DedupSnoc(s[1..], x, key, seen);
      } else {
        DedupSnoc(s[1..], x, key, seen + {k});
      }
    }
  }
}
