/** Python's stable sort, by an integer key and lexicographically on strings. */
module StableSort {

  predicate SortedBy<T>(xs: seq<T>, key: T -> int) {
    forall i, j | 0 <= i < j < |xs| :: key(xs[i]) <= key(xs[j])
  }

  /** Place `x` in front of the first element with a key that is not smaller. */
  function InsertBy<T>(x: T, xs: seq<T>, key: T -> int): seq<T> {
    if xs == [] || key(x) <= key(xs[0]) then [x] + xs
    else [xs[0]] + InsertBy(x, xs[1..], key)
  }

  /** `sorted(xs, key=key)`: insertion from the right, so equal keys keep their order. */
  function SortBy<T>(xs: seq<T>, key: T -> int): seq<T> {
    if xs == [] then [] else InsertBy(xs[0], SortBy(xs[1..], key), key)
  }

  lemma {:induction false} InsertByPermutes<T>(x: T, xs: seq<T>, key: T -> int)
    ensures multiset(InsertBy(x, xs, key)) == multiset{x} + multiset(xs)
  {
    if xs != [] {
      InsertByPermutes(x, xs[1..], key);
      assert xs == [xs[0]] + xs[1..];
    }
  }

  lemma {:induction false} InsertByMember<T>(x: T, xs: seq<T>, key: T -> int, y: T)
    requires y in InsertBy(x, xs, key)
    ensures y == x || y in xs
  {
    if xs != [] && key(x) > key(xs[0]) && y != xs[0] { InsertByMember(x, xs[1..], key, y); }
  }

  lemma ConsSorted<T>(x: T, xs: seq<T>, key: T -> int)
    requires SortedBy(xs, key) && forall y | y in xs :: key(x) <= key(y)
    ensures SortedBy([x] + xs, key)
  {
  }

  lemma {:induction false} InsertBySorts<T>(x: T, xs: seq<T>, key: T -> int)
    requires SortedBy(xs, key)
    ensures SortedBy(InsertBy(x, xs, key), key)
  {
    hide SortedBy;
    if xs == [] {
      ConsSorted(x, xs, key);
    } else {
      TailSorted(xs, key);
      if key(x) <= key(xs[0]) {
        ConsSorted(x, xs, key);
      } else {
        InsertBySorts(x, xs[1..], key);
        var r := InsertBy(x, xs[1..], key);
        forall y | y in r ensures key(xs[0]) <= key(y) { InsertByMember(x, xs[1..], key, y); }
        ConsSorted(xs[0], r, key);
      }
    }
  }

  lemma {:induction false} SortBySorts<T>(xs: seq<T>, key: T -> int)
    ensures SortedBy(SortBy(xs, key), key)
    ensures multiset(SortBy(xs, key)) == multiset(xs)
    ensures |SortBy(xs, key)| == |xs|
  {
    if xs != [] {
      SortBySorts(xs[1..], key);
      InsertByPermutes(xs[0], SortBy(xs[1..], key), key);
      InsertBySorts(xs[0], SortBy(xs[1..], key), key);
      assert xs == [xs[0]] + xs[1..];
    }
    assert |multiset(SortBy(xs, key))| == |multiset(xs)|;
  }

  lemma TailSorted<T>(xs: seq<T>, key: T -> int)
    requires SortedBy(xs, key) && xs != []
    ensures SortedBy(xs[1..], key) && forall y | y in xs :: key(xs[0]) <= key(y)
  {
    forall i, j | 0 <= i < j < |xs| - 1 ensures key(xs[1..][i]) <= key(xs[1..][j]) {
      assert xs[1..][i] == xs[i + 1] && xs[1..][j] == xs[j + 1];
    }
  }

  lemma InsertInFront<T>(x: T, xs: seq<T>, key: T -> int)
    requires forall y | y in xs :: key(x) <= key(y)
    ensures InsertBy(x, xs, key) == [x] + xs
  {
  }

  /** Sorting a sorted list changes nothing. */
  lemma {:induction false} SortByIdentity<T>(xs: seq<T>, key: T -> int)
    requires SortedBy(xs, key)
    ensures SortBy(xs, key) == xs
  {
    hide SortedBy, InsertBy;
    if xs != [] {
      TailSorted(xs, key);
      SortByIdentity(xs[1..], key);
      assert forall y | y in xs[1..] :: y in xs;
      InsertInFront(xs[0], xs[1..], key);
      assert xs == [xs[0]] + xs[1..];
    }
  }

  // ---- stability -----------------------------------------------------------------

  /** Sorted by `major`, equal elements by `minor`. */
  predicate SortedByTwo<T>(xs: seq<T>, major: T -> int, minor: T -> int) {
    forall i, j | 0 <= i < j < |xs| :: InOrder(xs[i], xs[j], major, minor)
  }

  predicate InOrder<T>(x: T, y: T, major: T -> int, minor: T -> int) {
    major(x) < major(y) || (major(x) == major(y) && minor(x) <= minor(y))
  }

  lemma ConsInOrder<T>(x: T, xs: seq<T>, major: T -> int, minor: T -> int)
    requires SortedByTwo(xs, major, minor) && forall y | y in xs :: InOrder(x, y, major, minor)
    ensures SortedByTwo([x] + xs, major, minor)
  {
    hide InOrder;
  }

  lemma TailInOrder<T>(xs: seq<T>, major: T -> int, minor: T -> int)
    requires SortedByTwo(xs, major, minor) && xs != []
    ensures SortedByTwo(xs[1..], major, minor)
    ensures forall y | y in xs[1..] :: y in xs && InOrder(xs[0], y, major, minor)
  {
    hide InOrder;
    forall i, j | 0 <= i < j < |xs| - 1 ensures InOrder(xs[1..][i], xs[1..][j], major, minor) {
      assert xs[1..][i] == xs[i + 1] && xs[1..][j] == xs[j + 1];
    }
    forall y | y in xs[1..] ensures y in xs && InOrder(xs[0], y, major, minor) {
      var i :| 0 <= i < |xs| - 1 && xs[1..][i] == y;
      assert xs[i + 1] == y;
    }
  }

  lemma {:induction false} InsertByInOrder<T>(x: T, xs: seq<T>, major: T -> int, minor: T -> int)
    requires SortedByTwo(xs, major, minor) && forall y | y in xs :: minor(x) <= minor(y)
    ensures SortedByTwo(InsertBy(x, xs, major), major, minor)
  {
    hide SortedByTwo;
    if xs == [] {
      ConsInOrder(x, xs, major, minor);
    } else {
      TailInOrder(xs, major, minor);
      if major(x) <= major(xs[0]) {
        assert xs == [xs[0]] + xs[1..];
        ConsInOrder(x, xs, major, minor);
      } else {
        InsertByInOrder(x, xs[1..], major, minor);
        var r := InsertBy(x, xs[1..], major);
        forall y | y in r ensures InOrder(xs[0], y, major, minor) { InsertByMember(x, xs[1..], major, y); }
        ConsInOrder(xs[0], r, major, minor);
      }
    }
  }

  /** Stability: sorting a list that is sorted by `minor` orders it by `major` and then `minor`. */
  lemma {:induction false} SortByStable<T>(xs: seq<T>, major: T -> int, minor: T -> int)
    requires SortedBy(xs, minor)
    ensures SortedByTwo(SortBy(xs, major), major, minor)
  {
    hide SortedBy;
    if xs != [] {
      TailSorted(xs, minor);
      SortByStable(xs[1..], major, minor);
      forall y | y in SortBy(xs[1..], major) ensures minor(xs[0]) <= minor(y) {
        SortByMembers(xs[1..], major, y);
        assert y in xs;
      }
      InsertByInOrder(xs[0], SortBy(xs[1..], major), major, minor);
    }
  }

  lemma SortByMembers<T>(xs: seq<T>, key: T -> int, x: T)
    ensures x in SortBy(xs, key) <==> x in xs
  {
    SortBySorts(xs, key);
    assert x in SortBy(xs, key) <==> x in multiset(SortBy(xs, key));
    assert x in xs <==> x in multiset(xs);
  }

  /** The first position of `x`. */
  function Position<T(==)>(xs: seq<T>, x: T): (i: int)
    ensures 0 <= i <= |xs| && (i < |xs| ==> xs[i] == x) && forall j | 0 <= j < i :: xs[j] != x
  {
    if xs == [] || xs[0] == x then 0 else 1 + Position(xs[1..], x)
  }

  /** Elements with equal keys keep their order. */
  lemma SortByKeepsOrder<T>(xs: seq<T>, key: T -> int)
    requires forall i, j | 0 <= i < j < |xs| :: xs[i] != xs[j]
    ensures var r := SortBy(xs, key);
            forall i, j | 0 <= i < j < |r| && key(r[i]) == key(r[j]) :: Position(xs, r[i]) <= Position(xs, r[j])
  {
    hide SortBy, Position;
    var place := x => Position(xs, x);
    forall i, j | 0 <= i < j < |xs| ensures place(xs[i]) <= place(xs[j]) {
      assert Position(xs, xs[i]) == i && Position(xs, xs[j]) == j;
    }
    SortByStable(xs, key, place);
    var r := SortBy(xs, key);
    forall i, j | 0 <= i < j < |r| && key(r[i]) == key(r[j]) ensures Position(xs, r[i]) <= Position(xs, r[j]) {
      assert InOrder(r[i], r[j], key, place);
    }
  }

  /** The first element of a sorted list is the earliest with the least key. */
  lemma {:induction false} SortByHead<T>(xs: seq<T>, key: T -> int) returns (i: int)
    requires xs != []
    ensures SortBy(xs, key) != [] && 0 <= i < |xs| && SortBy(xs, key)[0] == xs[i]
    ensures (forall j | 0 <= j < |xs| :: key(xs[i]) <= key(xs[j])) && (forall j | 0 <= j < i :: key(xs[i]) < key(xs[j]))
  {
    if |xs| == 1 {
      i := 0;
    } else {
      var k := SortByHead(xs[1..], key);
      i := if key(xs[0]) <= key(xs[1..][k]) then 0 else k + 1;
      forall j | 1 <= j < |xs| ensures xs[j] == xs[1..][j - 1] { }
    }
  }

  // ---- distinct keys under reordering ------------------------------------------------

  ghost predicate DistinctBy<T, K>(xs: seq<T>, key: T -> K) {
    forall i, j | 0 <= i < j < |xs| :: key(xs[i]) != key(xs[j])
  }

  lemma CountedOnce<T, K>(xs: seq<T>, key: T -> K, a: int)
    requires DistinctBy(xs, key) && 0 <= a < |xs|
    ensures multiset(xs)[xs[a]] == 1
  {
    var x := xs[a];
    assert xs == xs[..a] + [x] + xs[a + 1..];
    assert x !in xs[..a] && x !in xs[a + 1..];
    assert x !in multiset(xs[..a]) && x !in multiset(xs[a + 1..]);
    assert multiset(xs)[x] == multiset(xs[..a])[x] + 1 + multiset(xs[a + 1..])[x];
  }

  /** Distinct keys stay distinct under reordering. */
  lemma PermutationKeepsDistinct<T, K>(xs: seq<T>, ys: seq<T>, key: T -> K)
    requires DistinctBy(xs, key) && multiset(xs) == multiset(ys)
    ensures DistinctBy(ys, key)
  {
    forall i, j | 0 <= i < j < |ys| ensures key(ys[i]) != key(ys[j]) {
      var x, y := ys[i], ys[j];
      assert ys == ys[..j] + ys[j..] && ys[..j][i] == x && ys[j..][0] == y;
      assert x in multiset(ys[..j]) && y in multiset(ys[j..]);
      assert x in multiset(xs) && y in multiset(xs);
      assert x in xs && y in xs;
      var a :| 0 <= a < |xs| && xs[a] == x;
      var b :| 0 <= b < |xs| && xs[b] == y;
      CountedOnce(xs, key, a);
      assert multiset(ys) == multiset(ys[..j]) + multiset(ys[j..]);
    }
  }

  // ---- strings -------------------------------------------------------------

  /** Python's `<=` on strings: lexicographic by code point. */
  predicate StringLe(a: string, b: string) {
    a == "" || (b != "" && (a[0] < b[0] || (a[0] == b[0] && StringLe(a[1..], b[1..]))))
  }

  lemma {:induction false} StringLeTotal(a: string, b: string)
    ensures StringLe(a, b) || StringLe(b, a)
  {
    if a != "" && b != "" && a[0] == b[0] { StringLeTotal(a[1..], b[1..]); }
  }

  lemma {:induction false} StringLeAntisymmetric(a: string, b: string)
    requires StringLe(a, b) && StringLe(b, a)
    ensures a == b
  {
    if a != "" && b != "" {
      StringLeAntisymmetric(a[1..], b[1..]);
      assert a == [a[0]] + a[1..] && b == [b[0]] + b[1..];
    }
  }

  lemma {:induction false} StringLeTransitive(a: string, b: string, c: string)
    requires StringLe(a, b) && StringLe(b, c)
    ensures StringLe(a, c)
  {
    if a != "" && b != "" && c != "" && a[0] == b[0] && b[0] == c[0] { StringLeTransitive(a[1..], b[1..], c[1..]); }
  }

  function InsertString(x: string, xs: seq<string>): seq<string> {
    if xs == [] || StringLe(x, xs[0]) then [x] + xs else [xs[0]] + InsertString(x, xs[1..])
  }

  /** `sorted(xs)` */
  function SortStrings(xs: seq<string>): seq<string> {
    if xs == [] then [] else InsertString(xs[0], SortStrings(xs[1..]))
  }

  predicate Ascending(xs: seq<string>) {
    forall i, j | 0 <= i < j < |xs| :: StringLe(xs[i], xs[j])
  }

  lemma {:induction false} InsertStringKeeps(x: string, xs: seq<string>)
    requires Ascending(xs)
    ensures multiset(InsertString(x, xs)) == multiset{x} + multiset(xs)
    ensures Ascending(InsertString(x, xs))
  {
    if xs == [] {
    } else if StringLe(x, xs[0]) {
      forall j | 0 <= j < |xs| ensures StringLe(x, xs[j]) {
        if j > 0 { StringLeTransitive(x, xs[0], xs[j]); }
      }
    } else {
      StringLeTotal(x, xs[0]);
      InsertStringKeeps(x, xs[1..]);
      var r := InsertString(x, xs[1..]);
      assert xs == [xs[0]] + xs[1..];
      forall i | 0 <= i < |r| ensures StringLe(xs[0], r[i]) {
        assert r[i] in multiset(r);
        if r[i] != x { assert r[i] in multiset(xs[1..]); assert r[i] in xs[1..]; }
      }
    }
  }

  lemma {:induction false} SortStringsSorts(xs: seq<string>)
    ensures Ascending(SortStrings(xs)) && multiset(SortStrings(xs)) == multiset(xs)
  {
    if xs != [] {
      SortStringsSorts(xs[1..]);
      InsertStringKeeps(xs[0], SortStrings(xs[1..]));
      assert xs == [xs[0]] + xs[1..];
    }
  }

  lemma FirstIsLeast(xs: seq<string>, x: string)
    requires Ascending(xs) && x in multiset(xs)
    ensures x == xs[0] || StringLe(xs[0], x)
  {
    hide StringLe;
    assert x in xs;
  }

  lemma FirstsEqual(xs: seq<string>, ys: seq<string>)
    requires Ascending(xs) && Ascending(ys) && multiset(xs) == multiset(ys) && xs != [] && ys != []
    ensures xs[0] == ys[0]
  {
    hide StringLe, Ascending;
    assert xs[0] in multiset(xs) && ys[0] in multiset(ys);
    FirstIsLeast(xs, ys[0]);
    FirstIsLeast(ys, xs[0]);
    if xs[0] != ys[0] { StringLeAntisymmetric(xs[0], ys[0]); }
  }

  lemma TailOf(xs: seq<string>)
    requires Ascending(xs) && xs != []
    ensures Ascending(xs[1..]) && multiset(xs[1..]) == multiset(xs) - multiset{xs[0]} && xs == [xs[0]] + xs[1..]
  {
    hide StringLe;
    assert xs == [xs[0]] + xs[1..];
  }

  /** An ascending list is determined by its elements counted with multiplicity. */
  lemma {:induction false} AscendingUnique(xs: seq<string>, ys: seq<string>)
    requires Ascending(xs) && Ascending(ys) && multiset(xs) == multiset(ys)
    ensures xs == ys
  {
    hide StringLe, Ascending;
    assert |xs| == |multiset(xs)| && |ys| == |multiset(ys)|;
    if xs != [] {
      FirstsEqual(xs, ys);
      TailOf(xs);
      TailOf(ys);
      AscendingUnique(xs[1..], ys[1..]);
    }
  }

  /** Sorting is a canonical form for lists up to reordering. */
  lemma SortStringsCanonical(xs: seq<string>, ys: seq<string>)
    ensures SortStrings(xs) == SortStrings(ys) <==> multiset(xs) == multiset(ys)
  {
    SortStringsSorts(xs);
    SortStringsSorts(ys);
    if multiset(xs) == multiset(ys) { AscendingUnique(SortStrings(xs), SortStrings(ys)); }
  }
}
