/** Strings ordered by code point, and the sorted list of a set of strings. */
module TextOrder {

  predicate Le(a: string, b: string) {
    a == [] || (b != [] && (a[0] < b[0] || (a[0] == b[0] && Le(a[1..], b[1..]))))
  }

  lemma LeTotal(a: string, b: string)
    ensures Le(a, b) || Le(b, a)
  {
  }

  lemma {:induction false} LeAntisymmetric(a: string, b: string)
    requires Le(a, b) && Le(b, a)
    ensures a == b
  {
    if a != [] && b != [] {
      LeAntisymmetric(a[1..], b[1..]);
      assert a == [a[0]] + a[1..] && b == [b[0]] + b[1..];
    }
  }

  lemma {:induction false} LeTransitive(a: string, b: string, c: string)
    requires Le(a, b) && Le(b, c)
    ensures Le(a, c)
  {
    if a != [] && a[0] == b[0] == c[0] {
      LeTransitive(a[1..], b[1..], c[1..]);
    }
  }

  ghost predicate IsLeast(x: string, s: set<string>) {
    x in s && forall y | y in s :: Le(x, y)
  }

  lemma {:induction false} LeastExists(s: set<string>)
    requires s != {}
    ensures exists least :: IsLeast(least, s)
    decreases |s|
  {
    var x :| x in s;
    LeTotal(x, x);
    if s == {x} {
      assert IsLeast(x, s);
    } else {
      assert s - {x} != {};
      LeastExists(s - {x});
      var m :| IsLeast(m, s - {x});
      LeTotal(x, m);
      forall y | y in s && Le(x, m) ensures Le(x, y) {
        if y != x { LeTransitive(x, m, y); }
      }
      assert IsLeast(if Le(x, m) then x else m, s);
    }
  }

  ghost function Least(s: set<string>): (least: string)
    requires s != {}
    ensures IsLeast(least, s)
  {
    LeastExists(s);
    var least :| IsLeast(least, s);
    least
  }

  ghost predicate StrictlySorted(xs: seq<string>) {
    forall i, j | 0 <= i < j < |xs| :: Le(xs[i], xs[j]) && xs[i] != xs[j]
  }

  /** The elements of `s` in increasing order. */
  ghost function SortedSet(s: set<string>): (xs: seq<string>)
    ensures forall x :: x in xs <==> x in s
    ensures StrictlySorted(xs)
    ensures xs == [] <==> s == {}
    decreases |s|
  {
    if s == {} then []
    else
      var least := Least(s);
      [least] + SortedSet(s - {least})
  }

  lemma NoMembers(xs: seq<string>, ys: seq<string>)
    requires forall x :: x in xs <==> x in ys
    ensures xs == [] <==> ys == []
  {
    assert xs != [] ==> xs[0] in xs && xs[0] in ys;
    assert ys != [] ==> ys[0] in ys && ys[0] in xs;
  }

  /** A strictly sorted list is determined by its elements. */
  lemma {:induction false} SortedUnique(xs: seq<string>, ys: seq<string>)
    requires StrictlySorted(xs) && StrictlySorted(ys)
    requires forall x :: x in xs <==> x in ys
    ensures xs == ys
    decreases |xs|
  {
    if xs == [] || ys == [] {
      NoMembers(xs, ys);
    } else {
      assert xs[0] in ys;
      assert ys[0] in xs;
      var i :| 0 <= i < |ys| && ys[i] == xs[0];
      var j :| 0 <= j < |xs| && xs[j] == ys[0];
      if i != 0 && j != 0 {
        assert Le(ys[0], xs[0]) && Le(xs[0], ys[0]);
        LeAntisymmetric(xs[0], ys[0]);
      }
      assert xs[0] == ys[0];
      forall x ensures x in xs[1..] <==> x in ys[1..] {
        assert xs == [xs[0]] + xs[1..] && ys == [ys[0]] + ys[1..];
        if x in xs[1..] {
          var k :| 0 <= k < |xs| - 1 && xs[1..][k] == x;
          assert xs[k + 1] == x != xs[0];
          assert x in ys;
        }
        if x in ys[1..] {
          var k :| 0 <= k < |ys| - 1 && ys[1..][k] == x;
          assert ys[k + 1] == x != ys[0];
          assert x in xs;
        }
      }
      SortedUnique(xs[1..], ys[1..]);
      assert xs == [xs[0]] + xs[1..] && ys == [ys[0]] + ys[1..];
    }
  }

  function Insert(x: string, xs: seq<string>): seq<string> {
    if xs == [] || Le(x, xs[0]) then [x] + xs else [xs[0]] + Insert(x, xs[1..])
  }

  lemma {:induction false} InsertSorts(x: string, xs: seq<string>)
    requires StrictlySorted(xs) && x !in xs
    ensures StrictlySorted(Insert(x, xs))
    ensures forall y :: y in Insert(x, xs) <==> y == x || y in xs
  {
    if xs == [] {
    } else if Le(x, xs[0]) {
      forall i | 0 <= i < |xs| ensures Le(x, xs[i]) {
        LeTotal(xs[0], xs[0]);
        LeTransitive(x, xs[0], xs[i]);
      }
    } else {
      LeTotal(x, xs[0]);
      InsertSorts(x, xs[1..]);
      var rest := Insert(x, xs[1..]);
      forall i | 0 <= i < |rest| ensures Le(xs[0], rest[i]) && xs[0] != rest[i] {
        assert rest[i] in rest;
        if rest[i] != x {
          var k :| 0 <= k < |xs| - 1 && xs[1..][k] == rest[i];
          assert xs[k + 1] == rest[i];
        }
      }
      assert xs == [xs[0]] + xs[1..];
    }
  }

  /** Sort a set of strings. */
  method SortStrings(s: set<string>) returns (xs: seq<string>)
    ensures xs == SortedSet(s)
  {
    xs := [];
    var todo := s;
    while todo != {}
      invariant todo <= s
      invariant StrictlySorted(xs)
      invariant forall x :: x in xs <==> x in s - todo
    {
      var x :| x in todo;
      InsertSorts(x, xs);
      xs := Insert(x, xs);
      todo := todo - {x};
    }
    SortedUnique(xs, SortedSet(s));
  }

  // ---- The order by characters ----

  /** Where two texts first differ, the smaller character decides. */
  lemma {:induction false} FirstDifferenceDecides(a: string, b: string, k: nat)
    requires k < |a| && k < |b| && a[..k] == b[..k] && a[k] != b[k]
    ensures Le(a, b) <==> a[k] < b[k]
  {
    if k > 0 {
      assert a[0] == a[..k][0] == b[0];
      assert a[1..][..k - 1] == a[..k][1..] == b[1..][..k - 1];
      FirstDifferenceDecides(a[1..], b[1..], k - 1);
    }
  }

  /** A text comes before its continuations. */
  lemma {:induction false} PrefixComesFirst(a: string, rest: string)
    ensures Le(a, a + rest) && (rest != "" ==> !Le(a + rest, a))
  {
    if a == "" {
      assert a + rest == rest;
    } else {
      assert (a + rest)[1..] == a[1..] + rest;
      PrefixComesFirst(a[1..], rest);
    }
  }
}
