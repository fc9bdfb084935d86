/** `sorted`, on the code-point order of texts: a stable insertion sort by a key. */
module Sorting {
  import opened Texts

  predicate AtMost(a: string, b: string)
  {
    !Before(b, a)
  }

  function Insert<T>(x: T, list: seq<T>, key: T -> string): seq<T>
  {
    if list == [] || AtMost(key(x), key(list[0])) then [x] + list
    else [list[0]] + Insert(x, list[1..], key)
  }

  function Sorted<T>(list: seq<T>, key: T -> string): seq<T>
  {
    if list == [] then [] else Insert(list[0], Sorted(list[1..], key), key)
  }

  ghost predicate IsOrdered<T>(list: seq<T>, key: T -> string)
  {
    forall i :: 0 <= i < |list| - 1 ==> AtMost(key(list[i]), key(list[i + 1]))
  }

  /** Ordered, and no key twice. */
  ghost predicate IsStrictlyOrdered<T>(list: seq<T>, key: T -> string)
  {
    forall i, j :: 0 <= i < j < |list| ==> Before(key(list[i]), key(list[j]))
  }

  lemma {:induction false} BeforeIsStrict(a: string, b: string)
    requires Before(a, b)
    ensures !Before(b, a) && a != b
  {
    if a != "" && a[0] == b[0] {
      BeforeIsStrict(a[1..], b[1..]);
    }
  }

  /** At the first place where two texts differ, the smaller character, or the end of the text, comes first. */
  ghost predicate DiffersAt(a: string, b: string, i: int)
  {
    0 <= i < |b| && i <= |a| && a[..i] == b[..i] && (i == |a| || a[i] < b[i])
  }

  lemma DiffersLater(a: string, b: string, i: int)
    requires a != "" && b != "" && a[0] == b[0] && DiffersAt(a[1..], b[1..], i)
    ensures DiffersAt(a, b, i + 1)
  {
    assert a[..i + 1] == [a[0]] + a[1..][..i] && b[..i + 1] == [b[0]] + b[1..][..i];
  }

  lemma DiffersEarlier(a: string, b: string, i: int)
    requires a != "" && i > 0 && DiffersAt(a, b, i)
    ensures a[0] == b[0] && DiffersAt(a[1..], b[1..], i - 1)
  {
    assert a[0] == a[..i][0] && b[0] == b[..i][0];
    assert a[1..][..i - 1] == a[..i][1..] && b[1..][..i - 1] == b[..i][1..];
  }

  lemma {:induction false} BeforeExactly(a: string, b: string)
    ensures Before(a, b) <==> exists i :: DiffersAt(a, b, i)
  {
    if a == "" {
      assert b != "" ==> DiffersAt(a, b, 0);
    } else if b != "" {
      BeforeExactly(a[1..], b[1..]);
      if a[0] < b[0] {
        assert DiffersAt(a, b, 0);
      }
      if i :| DiffersAt(a[1..], b[1..], i) {
        if a[0] == b[0] {
          DiffersLater(a, b, i);
        }
      }
      if i :| DiffersAt(a, b, i) {
        if i > 0 {
          DiffersEarlier(a, b, i);
        }
      }
    }
  }

  lemma {:induction false} BeforeIsTransitive(a: string, b: string, c: string)
    requires Before(a, b) && Before(b, c)
    ensures Before(a, c)
  {
    if a != "" && a[0] == b[0] == c[0] {
      BeforeIsTransitive(a[1..], b[1..], c[1..]);
    }
  }

  lemma {:induction false} BeforeIsTotal(a: string, b: string)
    ensures Before(a, b) || a == b || Before(b, a)
  {
    if a != "" && b != "" && a[0] == b[0] {
      BeforeIsTotal(a[1..], b[1..]);
      assert a == [a[0]] + a[1..] && b == [b[0]] + b[1..];
    }
  }

  lemma OrderedCons<T>(x: T, list: seq<T>, key: T -> string)
    requires IsOrdered(list, key) && (list != [] ==> AtMost(key(x), key(list[0])))
    ensures IsOrdered([x] + list, key)
  {
    forall i | 0 <= i < |list| ensures AtMost(key(([x] + list)[i]), key(([x] + list)[i + 1])) {
      assert ([x] + list)[i + 1] == list[i];
      assert i > 0 ==> ([x] + list)[i] == list[i - 1];
    }
  }

  lemma {:induction false} InsertKeepsOrder<T>(x: T, list: seq<T>, key: T -> string)
    requires IsOrdered(list, key)
    ensures IsOrdered(Insert(x, list, key), key)
    ensures Insert(x, list, key)[0] == x || (list != [] && Insert(x, list, key)[0] == list[0])
  {
    if list != [] && !AtMost(key(x), key(list[0])) {
      var rest := Insert(x, list[1..], key);
      InsertKeepsOrder(x, list[1..], key);
      BeforeIsStrict(key(list[0]), key(x));
      OrderedCons(list[0], rest, key);
    }
  }

  lemma {:induction false} InsertKeepsElements<T>(x: T, list: seq<T>, key: T -> string)
    ensures multiset(Insert(x, list, key)) == multiset{x} + multiset(list)
  {
    if list != [] && !AtMost(key(x), key(list[0])) {
      InsertKeepsElements(x, list[1..], key);
      assert list == [list[0]] + list[1..];
    }
  }

  lemma {:induction false} SortedIsOrdered<T>(list: seq<T>, key: T -> string)
    ensures IsOrdered(Sorted(list, key), key)
    ensures multiset(Sorted(list, key)) == multiset(list)
  {
    if list != [] {
      SortedIsOrdered(list[1..], key);
      InsertKeepsOrder(list[0], Sorted(list[1..], key), key);
      InsertKeepsElements(list[0], Sorted(list[1..], key), key);
      assert list == [list[0]] + list[1..];
    }
  }

  /** Sorting distinct keys orders them strictly. */
  lemma {:induction false} OrderedDistinctIsStrict<T>(list: seq<T>, key: T -> string)
    requires IsOrdered(list, key)
    requires forall i, j :: 0 <= i < j < |list| ==> key(list[i]) != key(list[j])
    ensures IsStrictlyOrdered(list, key)
  {
    if list != [] {
      OrderedDistinctIsStrict(list[1..], key);
      forall j | 0 < j < |list| ensures Before(key(list[0]), key(list[j])) {
        BeforeIsTotal(key(list[0]), key(list[1]));
        if j > 1 {
          assert Before(key(list[1..][0]), key(list[1..][j - 1]));
          BeforeIsTransitive(key(list[0]), key(list[1]), key(list[j]));
        }
      }
    }
  }
}
