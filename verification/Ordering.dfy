/** The order Python gives to strings, sets of strings in that order, and stable sorting. */
module Ordering {

  /** Lexicographic order by code point: Python's `<=` on `str`. */
  predicate Le(a: string, b: string) {
    a == [] || (b != [] && (a[0] < b[0] || (a[0] == b[0] && Le(a[1..], b[1..]))))
  }

  predicate Lt(a: string, b: string) {
    a != b && Le(a, b)
  }

  lemma {:induction false} LeTotal(a: string, b: string)
    ensures Le(a, b) || Le(b, a)
  {
    if a != [] && b != [] && a[0] == b[0] { LeTotal(a[1..], b[1..]); }
  }

  lemma {:induction false} LeAntisymmetric(a: string, b: string)
    requires Le(a, b) && Le(b, a)
    ensures a == b
  {
    if a != [] {
      LeAntisymmetric(a[1..], b[1..]);
      assert a == [a[0]] + a[1..] && b == [b[0]] + b[1..];
    }
  }

  lemma {:induction false} LeTransitive(a: string, b: string, c: string)
    requires Le(a, b) && Le(b, c)
    ensures Le(a, c)
  {
    if a != [] && a[0] == b[0] == c[0] { LeTransitive(a[1..], b[1..], c[1..]); }
  }

  // ---- sorted(set of strings) ------------------------------------------------

  ghost predicate StrictlySorted(s: seq<string>) {
    forall i, j | 0 <= i < j < |s| :: Lt(s[i], s[j])
  }

  predicate IsLeast(x: string, s: set<string>) {
    x in s && forall y | y in s :: Le(x, y)
  }

  lemma {:induction false} LeastExists(s: set<string>)
    requires s != {}
    ensures exists x :: IsLeast(x, s)
  {
    var y :| y in s;
    if s == {y} {
      LeTotal(y, y);
      assert IsLeast(y, s);
    } else {
      LeastExists(s - {y});
      var x :| IsLeast(x, s - {y});
      LeTotal(x, y);
      LeTotal(y, y);
      var m := if Le(x, y) then x else y;
      forall z | z in s ensures Le(m, z) {
        if z != y && m == y { LeTransitive(y, x, z); }
      }
      assert IsLeast(m, s);
    }
  }

  lemma LeastUnique(s: set<string>)
    ensures forall x, y | IsLeast(x, s) && IsLeast(y, s) :: x == y
  {
    forall x, y | IsLeast(x, s) && IsLeast(y, s) ensures x == y {
      LeAntisymmetric(x, y);
    }
  }

  /** `sorted(s)` for a set of strings. */
  function SortedKeys(s: set<string>): (r: seq<string>)
    ensures StrictlySorted(r)
    ensures forall x :: x in r <==> x in s
  {
    if s == {} then [] else
      LeastExists(s);
      LeastUnique(s);
      var x :| x in s && IsLeast(x, s);
      var rest := SortedKeys(s - {x});
      assert forall i | 0 <= i < |rest| :: rest[i] in s - {x};
      [x] + rest
  }

  /** A strictly sorted listing is determined by its elements. */
  lemma {:induction false} SortedUnique(a: seq<string>, b: seq<string>)
    requires StrictlySorted(a) && StrictlySorted(b)
    requires forall x :: x in a <==> x in b
    ensures a == b
  {
    SameEmptiness(a, b);
    if a != [] {
      SortedHead(a, b);
      SortedHead(b, a);
      LeAntisymmetric(a[0], b[0]);
      SortedTailElements(a, b);
      SortedTailElements(b, a);
      SortedUnique(a[1..], b[1..]);
      assert a == [a[0]] + a[1..] && b == [b[0]] + b[1..];
    }
  }

  lemma SameEmptiness(a: seq<string>, b: seq<string>)
    requires forall x :: x in a <==> x in b
    ensures a == [] <==> b == []
  {
    if a != [] { assert a[0] in b; }
    if b != [] { assert b[0] in a; }
  }

  lemma SortedHead(a: seq<string>, b: seq<string>)
    requires a != [] && b != [] && StrictlySorted(a)
    requires forall x :: x in b ==> x in a
    ensures Le(a[0], b[0])
  {
    assert b[0] in a;
    var k :| 0 <= k < |a| && a[k] == b[0];
    LeTotal(a[0], a[0]);
  }

  lemma SortedTailElements(a: seq<string>, b: seq<string>)
    requires a != [] && b != [] && StrictlySorted(a) && StrictlySorted(b) && a[0] == b[0]
    requires forall x :: x in a <==> x in b
    ensures forall x :: x in a[1..] ==> x in b[1..]
    ensures StrictlySorted(a[1..])
  {
    forall x | x in a[1..] ensures x in b[1..] {
      var k :| 0 < k < |a| && a[k] == x;
      assert Lt(a[0], a[k]);
      assert x in b && x != b[0];
    }
  }

  // ---- stable sorting by a total preorder --------------------------------------

  ghost predicate TotalPreorder<T(!new)>(le: (T, T) -> bool) {
    && (forall x, y :: le(x, y) || le(y, x))
    && (forall x, y, z :: le(x, y) && le(y, z) ==> le(x, z))
  }

  ghost predicate Sorted<T>(le: (T, T) -> bool, s: seq<T>) {
    forall i, j | 0 <= i < j < |s| :: le(s[i], s[j])
  }

  function Insert<T>(le: (T, T) -> bool, x: T, s: seq<T>): (r: seq<T>) {
    if s == [] then [x]
    else if le(x, s[0]) then [x] + s
    else [s[0]] + Insert(le, x, s[1..])
  }

  /** Python's stable `sorted`: equal elements keep their order. */
  function Sort<T>(le: (T, T) -> bool, s: seq<T>): (r: seq<T>) {
    if s == [] then [] else Insert(le, s[0], Sort(le, s[1..]))
  }

  function Filter<T>(keep: T -> bool, s: seq<T>): (r: seq<T>) {
    if s == [] then []
    else if keep(s[0]) then [s[0]] + Filter(keep, s[1..])
    else Filter(keep, s[1..])
  }

  lemma {:induction false} InsertElements<T>(le: (T, T) -> bool, x: T, s: seq<T>)
    ensures multiset(Insert(le, x, s)) == multiset{x} + multiset(s)
    ensures forall y :: y in Insert(le, x, s) <==> y == x || y in s
  {
    if s != [] {
      assert s == [s[0]] + s[1..];
      if !le(x, s[0]) { InsertElements(le, x, s[1..]); }
    }
  }

  /** Putting an element that is below all of a sorted sequence in front keeps it sorted. */
  lemma SortedCons<T>(le: (T, T) -> bool, x: T, s: seq<T>)
    requires Sorted(le, s) && forall y | y in s :: le(x, y)
    ensures Sorted(le, [x] + s)
  {
    var t := [x] + s;
    forall i, j | 0 <= i < j < |t| ensures le(t[i], t[j]) {
      assert t[j] == s[j - 1];
      if i > 0 { assert le(s[i - 1], s[j - 1]); }
    }
  }

  lemma SortedUncons<T(!new)>(le: (T, T) -> bool, s: seq<T>)
    requires TotalPreorder(le) && Sorted(le, s) && s != []
    ensures Sorted(le, s[1..]) && forall y | y in s :: le(s[0], y)
  {
    forall y | y in s ensures le(s[0], y) {
      var k :| 0 <= k < |s| && s[k] == y;
      if k == 0 { assert le(y, y); }
    }
  }

  lemma {:induction false} InsertSorted<T(!new)>(le: (T, T) -> bool, x: T, s: seq<T>)
    requires TotalPreorder(le) && Sorted(le, s)
    ensures Sorted(le, Insert(le, x, s))
  {
    if s != [] {
      SortedUncons(le, s);
      if le(x, s[0]) {
        forall y | y in s ensures le(x, y) { assert le(s[0], y); }
        SortedCons(le, x, s);
      } else {
        InsertSorted(le, x, s[1..]);
        InsertElements(le, x, s[1..]);
        assert le(s[0], x);
        SortedCons(le, s[0], Insert(le, x, s[1..]));
      }
    }
  }

  lemma {:induction false} SortProperties<T(!new)>(le: (T, T) -> bool, s: seq<T>)
    requires TotalPreorder(le)
    ensures Sorted(le, Sort(le, s))
    ensures multiset(Sort(le, s)) == multiset(s)
  {
    if s != [] {
      SortProperties(le, s[1..]);
      InsertSorted(le, s[0], Sort(le, s[1..]));
      InsertElements(le, s[0], Sort(le, s[1..]));
      assert s == [s[0]] + s[1..];
    }
  }

  lemma {:induction false} SortedIsFixed<T(!new)>(le: (T, T) -> bool, s: seq<T>)
    requires TotalPreorder(le) && Sorted(le, s)
    ensures Sort(le, s) == s
  {
    if s != [] {
      SortedIsFixed(le, s[1..]);
      assert s == [s[0]] + s[1..];
      if |s| > 1 { assert le(s[0], s[1]); }
    }
  }

  lemma {:induction false} FilterElements<T>(keep: T -> bool, s: seq<T>)
    ensures forall x :: x in Filter(keep, s) <==> x in s && keep(x)
  {
    if s != [] {
      FilterElements(keep, s[1..]);
      assert s == [s[0]] + s[1..];
    }
  }

  lemma {:induction false} FilterInsert<T(!new)>(le: (T, T) -> bool, keep: T -> bool, x: T, s: seq<T>)
    requires TotalPreorder(le) && Sorted(le, s)
    ensures Filter(keep, Insert(le, x, s)) ==
            if keep(x) then Insert(le, x, Filter(keep, s)) else Filter(keep, s)
  {
    if s == [] {
    } else if le(x, s[0]) {
      assert ([x] + s)[1..] == s;
      var t := Filter(keep, s);
      FilterElements(keep, s);
      if t != [] {
        assert t[0] in s;
        var k :| 0 <= k < |s| && s[k] == t[0];
        assert le(x, t[0]);
      }
    } else {
      var rest := Insert(le, x, s[1..]);
      assert ([s[0]] + rest)[1..] == rest;
      FilterInsert(le, keep, x, s[1..]);
      if keep(s[0]) {
        var t := Filter(keep, s[1..]);
        assert ([s[0]] + t)[1..] == t;
      }
    }
  }

  /** Stability: sorting first and filtering afterwards is the same as the converse. */
  lemma {:induction false} FilterSort<T(!new)>(le: (T, T) -> bool, keep: T -> bool, s: seq<T>)
    requires TotalPreorder(le)
    ensures Filter(keep, Sort(le, s)) == Sort(le, Filter(keep, s))
  {
    if s != [] {
      FilterSort(le, keep, s[1..]);
      SortProperties(le, s[1..]);
      FilterInsert(le, keep, s[0], Sort(le, s[1..]));
      if keep(s[0]) {
        var t := Filter(keep, s[1..]);
        assert ([s[0]] + t)[1..] == t;
      }
    }
  }

  lemma {:induction false} FilterConcat<T>(keep: T -> bool, s: seq<T>, t: seq<T>)
    ensures Filter(keep, s + t) == Filter(keep, s) + Filter(keep, t)
  {
    if s == [] {
      assert s + t == t;
    } else {
      assert (s + t)[1..] == s[1..] + t;
      FilterConcat(keep, s[1..], t);
    }
  }

  lemma FilterSnoc<T>(keep: T -> bool, s: seq<T>, k: nat)
    requires k < |s|
    ensures Filter(keep, s[..k + 1]) == Filter(keep, s[..k]) + if keep(s[k]) then [s[k]] else []
  {
    assert s[..k + 1] == s[..k] + [s[k]];
    FilterConcat(keep, s[..k], [s[k]]);
  }

  /** The first kept element of a stable sort: below all other kept ones, and the earliest of its rank. */
  lemma {:induction false} FirstOfSorted<T(!new)>(le: (T, T) -> bool, keep: T -> bool, s: seq<T>) returns (k: nat)
    requires TotalPreorder(le) && exists x :: x in s && keep(x)
    ensures k < |s| && keep(s[k])
    ensures Filter(keep, Sort(le, s)) != [] && Filter(keep, Sort(le, s))[0] == s[k]
    ensures forall j | 0 <= j < |s| && keep(s[j]) :: le(s[k], s[j]) && (j < k ==> !le(s[j], s[k]))
  {
    FilterSort(le, keep, s);
    FilterSort(le, keep, s[1..]);
    assert le(s[0], s[0]);
    if exists x :: x in s[1..] && keep(x) {
      var m := FirstOfSorted(le, keep, s[1..]);
      k := if keep(s[0]) && le(s[0], s[m + 1]) then 0 else m + 1;
      assert keep(s[0]) ==> ([s[0]] + Filter(keep, s[1..]))[1..] == Filter(keep, s[1..]);
      forall j | 0 <= j < |s| && keep(s[j]) ensures le(s[k], s[j]) && (j < k ==> !le(s[j], s[k])) {
        if j > 0 { assert s[1..][j - 1] == s[j]; }
      }
    } else {
      FilterDropsAll(keep, s[1..]);
      k := 0;
      var x :| x in s && keep(x);
      assert s == [s[0]] + s[1..];
      forall j | 0 < j < |s| ensures !keep(s[j]) { assert s[1..][j - 1] in s[1..]; }
    }
  }

  lemma {:induction false} FilterAll<T>(keep: T -> bool, s: seq<T>)
    requires forall x | x in s :: keep(x)
    ensures Filter(keep, s) == s
  {
    if s != [] { FilterAll(keep, s[1..]); }
  }

  lemma {:induction false} FilterDropsAll<T>(keep: T -> bool, s: seq<T>)
    requires forall x | x in s :: !keep(x)
    ensures Filter(keep, s) == []
  {
    if s != [] { FilterDropsAll(keep, s[1..]); }
  }

  ghost predicate AntisymmetricOn<T>(le: (T, T) -> bool, s: multiset<T>) {
    forall x, y | x in s && y in s :: le(x, y) && le(y, x) ==> x == y
  }

  /** Two sorted sequences of the same elements agree when the order is antisymmetric on them. */
  lemma {:induction false} SortedPermutationsEqual<T>(le: (T, T) -> bool, s: seq<T>, t: seq<T>)
    requires AntisymmetricOn(le, multiset(s)) && Sorted(le, s) && Sorted(le, t) && multiset(s) == multiset(t)
    ensures s == t
  {
    assert |s| == |multiset(s)| == |multiset(t)| == |t|;
    if s != [] {
      HeadsEqual(le, s, t);
      TailsPermute(s, t);
      SortedTail(le, s);
      SortedTail(le, t);
      AntisymmetricTail(le, multiset(s), multiset(s[1..]));
      SortedPermutationsEqual(le, s[1..], t[1..]);
      assert s == [s[0]] + s[1..] && t == [t[0]] + t[1..];
    }
  }

  lemma AntisymmetricTail<T>(le: (T, T) -> bool, all: multiset<T>, some: multiset<T>)
    requires AntisymmetricOn(le, all) && some <= all
    ensures AntisymmetricOn(le, some)
  {
  }

  lemma SortedTail<T>(le: (T, T) -> bool, s: seq<T>)
    requires Sorted(le, s) && s != []
    ensures Sorted(le, s[1..])
  {
  }

  lemma TailsPermute<T>(s: seq<T>, t: seq<T>)
    requires s != [] && t != [] && s[0] == t[0] && multiset(s) == multiset(t)
    ensures multiset(s[1..]) == multiset(t[1..]) <= multiset(s)
  {
    assert s == [s[0]] + s[1..] && t == [t[0]] + t[1..];
    assert multiset(s[1..]) == multiset(s) - multiset{s[0]};
    assert multiset(t[1..]) == multiset(t) - multiset{t[0]};
  }

  lemma HeadsEqual<T>(le: (T, T) -> bool, s: seq<T>, t: seq<T>)
    requires AntisymmetricOn(le, multiset(s)) && s != [] && t != []
    requires Sorted(le, s) && Sorted(le, t) && multiset(s) == multiset(t)
    ensures s[0] == t[0]
  {
    assert s[0] in multiset(t) && t[0] in multiset(s);
    var j :| 0 <= j < |t| && t[j] == s[0];
    var k :| 0 <= k < |s| && s[k] == t[0];
    if j > 0 && k > 0 {
      assert le(s[0], s[k]) && le(t[0], t[j]);
    }
  }
}
