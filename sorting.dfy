/** Stable sorting by an integer key: the behaviour of JavaScript's
    `Array.prototype.sort` (stable since ES2019) with a comparator of the
    form `(a, b) => key(a) - key(b)`. */
module Sorting {
  import opened Seqs

  predicate SortedBy<T>(s: seq<T>, key: T -> int) {
    forall i, j :: 0 <= i < j < |s| ==> key(s[i]) <= key(s[j])
  }

  /** Places `x` just before the first element whose key exceeds `key(x)`,
      that is, after every element with an equal key. */
  function InsertBy<T>(s: seq<T>, x: T, key: T -> int): seq<T> {
    if s == [] || key(x) < key(s[0]) then [x] + s
    else [s[0]] + InsertBy(s[1..], x, key)
  }

  /** InsertBy adds exactly `x` and keeps a sorted sequence sorted. */
  lemma {:induction false} InsertByFacts<T>(s: seq<T>, x: T, key: T -> int)
    ensures multiset(InsertBy(s, x, key)) == multiset(s) + multiset{x}
    ensures SortedBy(s, key) ==> SortedBy(InsertBy(s, x, key), key)
  {
    if s == [] || key(x) < key(s[0]) {
      var r := [x] + s;
      assert InsertBy(s, x, key) == r;
      if s != [] && SortedBy(s, key) {
        forall i, j | 0 <= i < j < |r| ensures key(r[i]) <= key(r[j]) {
          assert r[j] == s[j - 1];
          if i > 0 {
            assert r[i] == s[i - 1];
          } else {
            assert key(s[0]) <= key(s[j - 1]);
          }
        }
      }
    } else {
      var rest := InsertBy(s[1..], x, key);
      assert InsertBy(s, x, key) == [s[0]] + rest;
      InsertByFacts(s[1..], x, key);
      assert s == [s[0]] + s[1..];
      if SortedBy(s, key) {
        InsertAfterHead(s, x, key, rest);
      }
    }
  }

  /** Putting the head of a sorted sequence back in front of the sorted
      insertion into its tail gives a sorted sequence. */
  lemma InsertAfterHead<T>(s: seq<T>, x: T, key: T -> int, rest: seq<T>)
    requires s != [] && SortedBy(s, key) && key(s[0]) <= key(x)
    requires multiset(rest) == multiset(s[1..]) + multiset{x} && SortedBy(rest, key)
    ensures SortedBy([s[0]] + rest, key)
  {
    var r := [s[0]] + rest;
    forall j | 0 <= j < |rest| ensures key(s[0]) <= key(rest[j]) {
      assert rest[j] in multiset(rest);
      if rest[j] != x {
        assert rest[j] in multiset(s[1..]);
        var m :| 0 <= m < |s[1..]| && s[1..][m] == rest[j];
        assert s[m + 1] == rest[j];
      }
    }
    forall i, j | 0 <= i < j < |r| ensures key(r[i]) <= key(r[j]) {
      assert r[j] == rest[j - 1];
      if i > 0 {
        assert r[i] == rest[i - 1];
      }
    }
  }

  /** Insertion sort, one element at a time from the left: a sorted
      permutation of its input. */
  function SortBy<T>(s: seq<T>, key: T -> int): (r: seq<T>)
    ensures multiset(r) == multiset(s)
    ensures SortedBy(r, key)
  {
    if s == [] then []
    else
      var t := SortBy(s[..|s| - 1], key);
      InsertByFacts(t, s[|s| - 1], key);
      assert s == s[..|s| - 1] + [s[|s| - 1]];
      InsertBy(t, s[|s| - 1], key)
  }

  /** The last element of a sorted sequence has the greatest key. */
  lemma SortedLastIsGreatest<T>(s: seq<T>, key: T -> int)
    requires SortedBy(s, key) && s != []
    ensures forall x :: x in s ==> key(x) <= key(s[|s| - 1])
  {
    forall x | x in s ensures key(x) <= key(s[|s| - 1]) {
      var i :| 0 <= i < |s| && s[i] == x;
      if i < |s| - 1 {
        assert key(s[i]) <= key(s[|s| - 1]);
      }
    }
  }

  lemma KeepNoneBelow<T(!new)>(s: seq<T>, key: T -> int, k: int)
    requires forall y :: y in s ==> key(y) > k
    ensures Keep(s, key, k) == []
  {
  }

  /** Inserting `x` into a sorted sequence puts it after every element of
      equal key and moves no other element relative to its equals. */
  lemma {:induction false} InsertByStable<T(!new)>(s: seq<T>, x: T, key: T -> int, k: int)
    requires SortedBy(s, key)
    ensures Keep(InsertBy(s, x, key), key, k) == Keep(s, key, k) + (if key(x) == k then [x] else [])
  {
    var hx := if key(x) == k then [x] else [];
    assert Keep([x], key, k) == hx;
    if s == [] {
      assert InsertBy(s, x, key) == [x];
    } else if key(x) < key(s[0]) {
      assert InsertBy(s, x, key) == [x] + s;
      KeepAppend([x], s, key, k);
      if key(x) == k {
        KeepNoneBelow(s, key, k);
      }
    } else {
      var rest := InsertBy(s[1..], x, key);
      assert InsertBy(s, x, key) == [s[0]] + rest;
      InsertByStable(s[1..], x, key, k);
      KeepAppend([s[0]], rest, key, k);
      assert s == [s[0]] + s[1..];
      KeepAppend([s[0]], s[1..], key, k);
    }
  }

  /** SortBy is stable: among elements of one key the input order survives. */
  lemma {:induction false} SortByStable<T(!new)>(s: seq<T>, key: T -> int, k: int)
    ensures Keep(SortBy(s, key), key, k) == Keep(s, key, k)
  {
    if s != [] {
      var p, x := s[..|s| - 1], s[|s| - 1];
      assert s == p + [x];
      var hx := if key(x) == k then [x] else [];
      SortByStable(p, key, k);
      InsertByStable(SortBy(p, key), x, key, k);
      assert SortBy(s, key) == InsertBy(SortBy(p, key), x, key);
      KeepAppend(p, [x], key, k);
      assert Keep([x], key, k) == hx;
    }
  }

  /** Filtering a sorted sequence, by any selector, leaves it sorted. */
  lemma {:induction false} KeepSorted<T(!new), K>(s: seq<T>, key: T -> int, sel: T -> K, k: K)
    requires SortedBy(s, key)
    ensures SortedBy(Keep(s, sel, k), key)
  {
    if s != [] {
      KeepSorted(s[1..], key, sel, k);
      var rest := Keep(s[1..], sel, k);
      if sel(s[0]) == k {
        var r := [s[0]] + rest;
        forall j | 0 < j < |r| ensures key(r[0]) <= key(r[j]) {
          assert r[j] in s[1..];
        }
        forall i, j | 0 <= i < j < |r| ensures key(r[i]) <= key(r[j]) {
          if i > 0 {
            assert r[i] == rest[i - 1] && r[j] == rest[j - 1];
          }
        }
      }
    }
  }

  lemma KeepOfHead<T(!new)>(s: seq<T>, key: T -> int)
    ensures s != [] ==> Keep(s, key, key(s[0])) != []
  {
  }

  /** Two sorted sequences that agree on the order of each key's elements
      are the same sequence. */
  lemma {:induction false} SortedStableUnique<T(!new)>(r1: seq<T>, r2: seq<T>, key: T -> int)
    requires SortedBy(r1, key) && SortedBy(r2, key)
    requires forall k :: Keep(r1, key, k) == Keep(r2, key, k)
    ensures r1 == r2
  {
    if r1 == [] || r2 == [] {
      KeepOfHead(r1, key);
      KeepOfHead(r2, key);
    } else {
      var m1, m2 := key(r1[0]), key(r2[0]);
      assert r1[0] in Keep(r2, key, m1);
      assert r2[0] in Keep(r1, key, m2);
      assert m1 == m2;
      assert Keep(r1, key, m1) == [r1[0]] + Keep(r1[1..], key, m1);
      assert Keep(r2, key, m1) == [r2[0]] + Keep(r2[1..], key, m1);
      forall k ensures Keep(r1[1..], key, k) == Keep(r2[1..], key, k) {
        if k != m1 {
          assert Keep(r1, key, k) == Keep(r1[1..], key, k);
          assert Keep(r2, key, k) == Keep(r2[1..], key, k);
        } else {
          assert Keep(r1, key, k)[1..] == Keep(r1[1..], key, k);
          assert Keep(r2, key, k)[1..] == Keep(r2[1..], key, k);
        }
      }
      SortedStableUnique(r1[1..], r2[1..], key);
      assert Keep(r1, key, m1)[0] == Keep(r2, key, m1)[0];
      assert r1 == [r1[0]] + r1[1..] && r2 == [r2[0]] + r2[1..];
    }
  }

  /** Any stable sort of `s` by `key` yields exactly SortBy(s, key), so the
      model does not depend on which stable algorithm the engine runs. */
  lemma SortByIsTheStableSort<T(!new)>(s: seq<T>, r: seq<T>, key: T -> int)
    requires SortedBy(r, key)
    requires forall k :: Keep(r, key, k) == Keep(s, key, k)
    ensures r == SortBy(s, key)
  {
    forall k ensures Keep(r, key, k) == Keep(SortBy(s, key), key, k) {
      SortByStable(s, key, k);
    }
    SortedStableUnique(r, SortBy(s, key), key);
  }
}
