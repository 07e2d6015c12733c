/** Python's ordering of strings and of pairs of strings, and `sorted` applied
    to a set: the unique strictly ascending enumeration of its elements. */
module Order {

  /** Python's `a < b` on `str`: lexicographic by code point, a proper prefix
      coming first. */
  predicate StringLess(a: string, b: string)
    decreases |a|
  {
    if a == [] then b != []
    else if b == [] then false
    else if a[0] != b[0] then a[0] < b[0]
    else StringLess(a[1..], b[1..])
  }

  /** Python's `p < q` on 2-tuples of `str`. */
  predicate PairLess(p: (string, string), q: (string, string)) {
    StringLess(p.0, q.0) || (p.0 == q.0 && StringLess(p.1, q.1))
  }

  ghost predicate StrictTotalOrder<T(!new)>(less: (T, T) -> bool) {
    && (forall a :: !less(a, a))
    && (forall a, b, c :: less(a, b) && less(b, c) ==> less(a, c))
    && (forall a, b :: a != b ==> less(a, b) || less(b, a))
  }

  predicate StrictlySorted<T>(xs: seq<T>, less: (T, T) -> bool) {
    forall i, j :: 0 <= i < j < |xs| ==> less(xs[i], xs[j])
  }

  lemma {:induction false} StringLessIrreflexive(a: string)
    ensures !StringLess(a, a)
    decreases |a|
  {
    if a != [] {
      StringLessIrreflexive(a[1..]);
    }
  }

  lemma {:induction false} StringLessTransitive(a: string, b: string, c: string)
    requires StringLess(a, b) && StringLess(b, c)
    ensures StringLess(a, c)
    decreases |a|
  {
    if a != [] && a[0] == b[0] && b[0] == c[0] {
      StringLessTransitive(a[1..], b[1..], c[1..]);
    }
  }

  lemma {:induction false} StringLessTotal(a: string, b: string)
    requires a != b
    ensures StringLess(a, b) || StringLess(b, a)
    decreases |a|
  {
    if a != [] && b != [] && a[0] == b[0] {
      assert a == [a[0]] + a[1..] && b == [b[0]] + b[1..];
      StringLessTotal(a[1..], b[1..]);
    }
  }

  lemma StringLessIsStrictTotalOrder()
    ensures StrictTotalOrder(StringLess)
  {
    forall a: string ensures !StringLess(a, a) {
      StringLessIrreflexive(a);
    }
    forall a: string, b: string, c: string | StringLess(a, b) && StringLess(b, c)
      ensures StringLess(a, c)
    {
      StringLessTransitive(a, b, c);
    }
    forall a: string, b: string | a != b ensures StringLess(a, b) || StringLess(b, a) {
      StringLessTotal(a, b);
    }
  }

  lemma PairLessIsStrictTotalOrder()
    ensures StrictTotalOrder(PairLess)
  {
    StringLessIsStrictTotalOrder();
  }

  /** A strictly sorted sequence is determined by its elements: `sorted`
      applied to the same set always gives the same list. */
  lemma {:induction false} SortedUnique<T(!new)>(xs: seq<T>, ys: seq<T>, less: (T, T) -> bool)
    requires StrictTotalOrder(less)
    requires StrictlySorted(xs, less) && StrictlySorted(ys, less)
    requires forall x :: x in xs <==> x in ys
    ensures xs == ys
    decreases |xs|
  {
    assert xs != [] ==> xs[0] in ys;
    assert ys != [] ==> ys[0] in xs;
    if xs != [] && ys != [] {
      var x, y := xs[0], ys[0];
      assert x in ys && y in xs;
      assert x == y || less(x, y) by {
        var i :| 0 <= i < |xs| && xs[i] == y;
      }
      assert x == y || less(y, x) by {
        var j :| 0 <= j < |ys| && ys[j] == x;
      }
      forall z ensures z in xs[1..] <==> z in ys[1..] {
        if z in xs[1..] {
          var i :| 1 <= i < |xs| && xs[i] == z;
          assert less(x, z) && z in xs && z in ys;
          var k :| 0 <= k < |ys| && ys[k] == z;
          assert k != 0 && ys[1..][k - 1] == z;
        }
        if z in ys[1..] {
          var j :| 1 <= j < |ys| && ys[j] == z;
          assert less(y, z) && z in ys && z in xs;
          var k :| 0 <= k < |xs| && xs[k] == z;
          assert k != 0 && xs[1..][k - 1] == z;
        }
      }
      SortedUnique(xs[1..], ys[1..], less);
      assert xs == [x] + xs[1..] && ys == [y] + ys[1..];
    }
  }

  /** The least element of a non-empty set. */
  method Least<T(!new)>(s: set<T>, less: (T, T) -> bool) returns (m: T)
    requires s != {}
    requires StrictTotalOrder(less)
    ensures m in s
    ensures forall x :: x in s && x != m ==> less(m, x)
  {
    m :| m in s;
    var todo := s - {m};
    while todo != {}
      invariant todo <= s && m in s && m !in todo
      invariant forall x :: x in s - todo && x != m ==> less(m, x)
      decreases |todo|
    {
      var y :| y in todo;
      if less(y, m) {
        forall x | x in s - todo && x != y ensures less(y, x) {
          if x != m {
            assert less(m, x);
          }
        }
        m := y;
      }
      todo := todo - {y};
    }
  }

  /** `sorted(s)` for a set `s`: its elements in strictly ascending order. */
  method SortSet<T(!new)>(s: set<T>, less: (T, T) -> bool) returns (xs: seq<T>)
    requires StrictTotalOrder(less)
    ensures StrictlySorted(xs, less)
    ensures forall x :: x in xs <==> x in s
    ensures |xs| == |s|
  {
    xs := [];
    var rest := s;
    while rest != {}
      invariant rest <= s
      invariant forall x :: x in s <==> x in xs || x in rest
      invariant StrictlySorted(xs, less)
      invariant forall i, y :: 0 <= i < |xs| && y in rest ==> less(xs[i], y)
      invariant |xs| + |rest| == |s|
      decreases |rest|
    {
      var m := Least(rest, less);
      xs := xs + [m];
      rest := rest - {m};
    }
  }
}
