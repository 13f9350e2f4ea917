/** Python's sorted() over the items of a set, and the order it uses for text. */
module Ordering {

  predicate TextLess(a: string, b: string)
    decreases |a|
  {
    b != [] && (a == [] || a[0] < b[0] || (a[0] == b[0] && TextLess(a[1..], b[1..])))
  }

  ghost predicate StrictOrder<T(!new)>(less: (T, T) -> bool) {
    && (forall a :: !less(a, a))
    && (forall a, b :: a == b || less(a, b) || less(b, a))
    && (forall a, b, c :: less(a, b) && less(b, c) ==> less(a, c))
  }

  predicate Ascending<T>(items: seq<T>, less: (T, T) -> bool) {
    forall i, j :: 0 <= i < j < |items| ==> less(items[i], items[j])
  }

  lemma {:induction false} TextIsTransitive(a: string, b: string, c: string)
    requires TextLess(a, b) && TextLess(b, c)
    ensures TextLess(a, c)
    decreases |a|
  {
    if a != [] && a[0] == b[0] == c[0] {
      TextIsTransitive(a[1..], b[1..], c[1..]);
    }
  }

  lemma {:induction false} TextIsTotal(a: string, b: string)
    ensures !TextLess(a, a) && (a == b || TextLess(a, b) || TextLess(b, a))
    decreases |a|
  {
    if a != [] {
      TextIsTotal(a[1..], if b == [] then [] else b[1..]);
      if b != [] && a[0] == b[0] && a[1..] == b[1..] {
        assert a == [a[0]] + a[1..] && b == [b[0]] + b[1..];
      }
    }
  }

  lemma TextIsOrdered()
    ensures StrictOrder(TextLess)
  {
    forall a, b ensures !TextLess(a, a) && (a == b || TextLess(a, b) || TextLess(b, a)) {
      TextIsTotal(a, b);
    }
    forall a, b, c | TextLess(a, b) && TextLess(b, c) ensures TextLess(a, c) {
      TextIsTransitive(a, b, c);
    }
  }

  predicate IsLeast<T(==)>(least: T, items: set<T>, less: (T, T) -> bool) {
    least in items && forall x <- items :: x == least || less(least, x)
  }

  lemma {:induction false} LeastExists<T(!new)>(items: set<T>, less: (T, T) -> bool)
    requires StrictOrder(less) && items != {}
    ensures exists least :: IsLeast(least, items, less)
    decreases |items|
  {
    var x :| x in items;
    if items - {x} == {} {
      assert items <= {x};
      assert IsLeast(x, items, less);
    } else {
      LeastExists(items - {x}, less);
      var rest :| IsLeast(rest, items - {x}, less);
      if less(x, rest) {
        forall y | y in items ensures y == x || less(x, y) {
          assert y == x || y == rest || less(rest, y);
        }
        assert IsLeast(x, items, less);
      } else {
        assert IsLeast(rest, items, less);
      }
    }
  }

  function Sorted<T(==, !new)>(items: set<T>, less: (T, T) -> bool): seq<T>
    requires StrictOrder(less)
    decreases |items|
  {
    if items == {} then []
    else
      LeastExists(items, less);
      var least :| least in items && IsLeast(least, items, less);
      [least] + Sorted(items - {least}, less)
  }

  lemma LeastComesFirst<T>(least: T, rest: seq<T>, less: (T, T) -> bool)
    requires Ascending(rest, less) && forall x <- rest :: less(least, x)
    ensures Ascending([least] + rest, less)
    ensures forall x :: x in [least] + rest <==> x == least || x in rest
  {
  }

  lemma {:induction false} SortedIsAscending<T(!new)>(items: set<T>, less: (T, T) -> bool)
    requires StrictOrder(less)
    ensures Ascending(Sorted(items, less), less)
    ensures forall x :: x in Sorted(items, less) <==> x in items
    decreases |items|
  {
    if items != {} {
      LeastExists(items, less);
      var least :| IsLeast(least, items, less) && Sorted(items, less) == [least] + Sorted(items - {least}, less);
      SortedIsAscending(items - {least}, less);
      LeastComesFirst(least, Sorted(items - {least}, less), less);
    }
  }

  /** The names in the order of Python's sorted(). */
  function SortedNames(names: set<string>): (sorted: seq<string>)
    ensures Ascending(sorted, TextLess) && forall n :: n in sorted <==> n in names
  {
    TextIsOrdered();
    SortedIsAscending(names, TextLess);
    Sorted(names, TextLess)
  }

  /** An ascending sequence is determined by what it contains. */
  lemma {:induction false} AscendingIsUnique<T(!new)>(s: seq<T>, t: seq<T>, less: (T, T) -> bool)
    requires StrictOrder(less) && Ascending(s, less) && Ascending(t, less)
    requires forall x :: x in s <==> x in t
    ensures s == t
    decreases |s|
  {
    assert t != [] ==> t[0] in s;
    if s != [] {
      assert s[0] in t && t[0] in s by {
        assert s[0] in s;
        assert t != [];
        assert t[0] in t;
      }
      assert s[0] == t[0];
      forall x ensures x in s[1..] <==> x in t[1..] {
        assert x in s <==> x == s[0] || x in s[1..];
        assert x in t <==> x == t[0] || x in t[1..];
        assert s[0] !in s[1..] && t[0] !in t[1..];
      }
      AscendingIsUnique(s[1..], t[1..], less);
      assert s == [s[0]] + s[1..] && t == [t[0]] + t[1..];
    }
  }
}
