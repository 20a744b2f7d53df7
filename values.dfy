/** Cells read from JSON lines, JSON arrays and CSV files, as the scripts see them. */
module Values {
  import opened PyStr

  datatype Option<T> = None | Some(value: T)

  /** A scalar read from a JSON document or a CSV column: a string, an integer, or a
      value of any other type (float, NaN, null, ...) carried with its `str()` rendering. */
  datatype Value = Str(s: string) | Int(i: int) | Other(shown: string)

  /** Python's `str(v)`: a string is itself, an integer its decimal form. */
  function Show(v: Value): (r: string)
    ensures v.Str? ==> r == v.s
    ensures v.Int? && v.i >= 0 ==> r != [] && '0' <= r[0] <= '9'
    ensures v.Int? && v.i < 0 ==> |r| >= 2 && r[0] == '-'
  {
    match v
    case Str(s) => s
    case Int(i) => IntToString(i)
    case Other(shown) => shown
  }

  /** The identity, passed where a key or a filter is the element itself. */
  function Id<T>(x: T): T { x }

  /** The values `f` gives, in order, for the elements where it gives one. */
  function FilterMap<A, B>(s: seq<A>, f: A -> Option<B>): seq<B> {
    if s == [] then []
    else
      var last := s[|s| - 1];
      FilterMap(s[..|s| - 1], f) + match f(last) case Some(b) => [b] case None => []
  }

  /** Each result is the value `f` gives for some element. */
  lemma {:induction false} FilterMapSource<A, B>(s: seq<A>, f: A -> Option<B>, b: B) returns (a: A)
    requires b in FilterMap(s, f)
    ensures a in s && f(a) == Some(b)
  {
    var init, last := s[..|s| - 1], s[|s| - 1];
    if b in FilterMap(init, f) {
      a := FilterMapSource(init, f, b);
      assert a in s by {
        assert s == init + [last];
      }
    } else {
      a := last;
    }
  }

  /** Each value `f` gives for an element is a result. */
  lemma {:induction false} FilterMapHas<A, B>(s: seq<A>, f: A -> Option<B>, a: A)
    requires a in s && f(a).Some?
    ensures f(a).value in FilterMap(s, f)
  {
    var init, last := s[..|s| - 1], s[|s| - 1];
    if a != last {
      assert a in init by {
        assert s == init + [last];
      }
      FilterMapHas(init, f, a);
    }
  }

  /** The results are exactly the values `f` gives for some element. */
  lemma FilterMapMembers<A, B>(s: seq<A>, f: A -> Option<B>)
    ensures forall b :: b in FilterMap(s, f) <==> exists a :: a in s && f(a) == Some(b)
  {
    forall b | b in FilterMap(s, f) ensures exists a :: a in s && f(a) == Some(b) {
      var a := FilterMapSource(s, f, b);
    }
    forall a | a in s && f(a).Some? ensures f(a).value in FilterMap(s, f) {
      FilterMapHas(s, f, a);
    }
  }

  /** The results keep the order of the elements. */
  lemma {:induction false} FilterMapAppend<A, B>(s: seq<A>, t: seq<A>, f: A -> Option<B>)
    ensures FilterMap(s + t, f) == FilterMap(s, f) + FilterMap(t, f)
    decreases |t|
  {
    if t == [] {
      assert s + t == s;
    } else {
      assert (s + t)[..|s + t| - 1] == s + t[..|t| - 1];
      FilterMapAppend(s, t[..|t| - 1], f);
    }
  }

  /** One more element adds its value, if `f` gives one. */
  lemma FilterMapSnoc<A, B>(s: seq<A>, i: nat, f: A -> Option<B>)
    requires i < |s|
    ensures FilterMap(s[..i + 1], f) == FilterMap(s[..i], f) + match f(s[i]) case Some(b) => [b] case None => []
  {
    assert s[..i + 1][..i] == s[..i];
  }

  /** There are at most as many results as elements. */
  lemma {:induction false} FilterMapLength<A, B>(s: seq<A>, f: A -> Option<B>)
    ensures |FilterMap(s, f)| <= |s|
  {
    if s != [] {
      FilterMapLength(s[..|s| - 1], f);
    }
  }
}
