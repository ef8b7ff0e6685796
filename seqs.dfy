/** Order-preserving filters by a key, the shape of every `Array.filter`
    the store runs over its collections. */
module Seqs {

  /** The elements of `s` whose key is `k`, in their original order. */
  function Keep<T(!new), K(==)>(s: seq<T>, key: T -> K, k: K): (r: seq<T>)
    ensures forall x :: x in r <==> x in s && key(x) == k
    ensures |r| <= |s|
  {
    if s == [] then []
    else if key(s[0]) == k then [s[0]] + Keep(s[1..], key, k)
    else Keep(s[1..], key, k)
  }

  /** The elements of `s` whose key is not `k`, in their original order. */
  function Drop<T(!new), K(==)>(s: seq<T>, key: T -> K, k: K): (r: seq<T>)
    ensures forall x :: x in r <==> x in s && key(x) != k
    ensures |r| <= |s|
  {
    if s == [] then []
    else if key(s[0]) != k then [s[0]] + Drop(s[1..], key, k)
    else Drop(s[1..], key, k)
  }

  /** Keep distributes over concatenation: filtering never reorders. */
  lemma {:induction false} KeepAppend<T(!new), K>(a: seq<T>, b: seq<T>, key: T -> K, k: K)
    ensures Keep(a + b, key, k) == Keep(a, key, k) + Keep(b, key, k)
  {
    if a != [] {
      var c := a + b;
      assert c[0] == a[0] && c[1..] == a[1..] + b;
      KeepAppend(a[1..], b, key, k);
      if key(a[0]) == k {
        calc {
          Keep(c, key, k);
          [a[0]] + Keep(a[1..] + b, key, k);
          [a[0]] + (Keep(a[1..], key, k) + Keep(b, key, k));
          ([a[0]] + Keep(a[1..], key, k)) + Keep(b, key, k);
          Keep(a, key, k) + Keep(b, key, k);
        }
      } else {
        calc {
          Keep(c, key, k);
          Keep(a[1..] + b, key, k);
          Keep(a[1..], key, k) + Keep(b, key, k);
          Keep(a, key, k) + Keep(b, key, k);
        }
      }
    } else {
      assert a + b == b;
    }
  }

  /** Drop distributes over concatenation: filtering never reorders. */
  lemma {:induction false} DropAppend<T(!new), K>(a: seq<T>, b: seq<T>, key: T -> K, k: K)
    ensures Drop(a + b, key, k) == Drop(a, key, k) + Drop(b, key, k)
  {
    if a != [] {
      var c := a + b;
      assert c[0] == a[0] && c[1..] == a[1..] + b;
      DropAppend(a[1..], b, key, k);
      if key(a[0]) != k {
        calc {
          Drop(c, key, k);
          [a[0]] + Drop(a[1..] + b, key, k);
          [a[0]] + (Drop(a[1..], key, k) + Drop(b, key, k));
          ([a[0]] + Drop(a[1..], key, k)) + Drop(b, key, k);
          Drop(a, key, k) + Drop(b, key, k);
        }
      } else {
        calc {
          Drop(c, key, k);
          Drop(a[1..] + b, key, k);
          Drop(a[1..], key, k) + Drop(b, key, k);
          Drop(a, key, k) + Drop(b, key, k);
        }
      }
    } else {
      assert a + b == b;
    }
  }

  /** What Keep selects and what Drop selects make up the whole sequence,
      each element as many times as it occurs. */
  lemma {:induction false} KeepDropPartition<T(!new), K>(s: seq<T>, key: T -> K, k: K)
    ensures multiset(Keep(s, key, k)) + multiset(Drop(s, key, k)) == multiset(s)
  {
    if s != [] {
      assert multiset(s) == multiset([s[0]]) + multiset(s[1..]) by {
        assert s == [s[0]] + s[1..];
      }
      KeepDropPartition(s[1..], key, k);
      if key(s[0]) == k {
        assert Keep(s, key, k) == [s[0]] + Keep(s[1..], key, k);
        assert Drop(s, key, k) == Drop(s[1..], key, k);
      } else {
        assert Keep(s, key, k) == Keep(s[1..], key, k);
        assert Drop(s, key, k) == [s[0]] + Drop(s[1..], key, k);
      }
    }
  }

  /** Drop removes every element of a sequence whose keys are all `k`. */
  lemma {:induction false} DropAll<T(!new), K>(s: seq<T>, key: T -> K, k: K)
    requires forall x :: x in s ==> key(x) == k
    ensures Drop(s, key, k) == []
  {
    if s != [] {
      assert forall x :: x in s[1..] ==> x in s;
      DropAll(s[1..], key, k);
    }
  }

  /** `x` is the last element of `t`. */
  ghost predicate EndsWith<T>(t: seq<T>, x: T) {
    t != [] && t[|t| - 1] == x
  }

  /** The last element of `s` is the last element Keep selects by its key. */
  lemma {:induction false} KeepLastOf<T(!new), K>(s: seq<T>, key: T -> K)
    requires s != []
    ensures EndsWith(Keep(s, key, key(s[|s| - 1])), s[|s| - 1])
  {
    var k := key(s[|s| - 1]);
    if |s| == 1 {
      assert Keep(s, key, k) == [s[0]] + Keep(s[1..], key, k);
    } else {
      KeepLastOf(s[1..], key);
      assert s[1..][|s[1..]| - 1] == s[|s| - 1];
      var rest := Keep(s[1..], key, k);
      if key(s[0]) == k {
        assert Keep(s, key, k) == [s[0]] + rest;
      } else {
        assert Keep(s, key, k) == rest;
      }
    }
  }

  /** When every element after index `j` has `sel` key `k` and `s[j]` does
      not, `s[j]` is the last element left after keeping the elements of
      its `key` and dropping those whose `sel` key is `k`. */
  lemma {:induction false} KeepDropLastOf<T(!new), K, L>(s: seq<T>, j: nat, key: T -> K, sel: T -> L, k: L)
    requires j < |s| && sel(s[j]) != k
    requires forall m :: j < m < |s| ==> sel(s[m]) == k
    ensures EndsWith(Drop(Keep(s, key, key(s[j])), sel, k), s[j])
  {
    var d := key(s[j]);
    var rest := Keep(s[1..], key, d);
    if j == 0 {
      AllKeyedAfter(s, 0, sel, k);
      DropAll(rest, sel, k);
      assert Keep(s, key, d) == [s[0]] + rest;
      assert Drop([s[0]] + rest, sel, k) == [s[0]] + Drop(([s[0]] + rest)[1..], sel, k) by {
        assert ([s[0]] + rest)[0] == s[0];
      }
      assert ([s[0]] + rest)[1..] == rest;
    } else {
      assert s[1..][j - 1] == s[j];
      KeepDropLastOf(s[1..], j - 1, key, sel, k);
      var tail := Drop(rest, sel, k);
      if key(s[0]) == d {
        assert Keep(s, key, d) == [s[0]] + rest;
        assert ([s[0]] + rest)[0] == s[0] && ([s[0]] + rest)[1..] == rest;
        if sel(s[0]) != k {
          assert Drop([s[0]] + rest, sel, k) == [s[0]] + tail;
        } else {
          assert Drop([s[0]] + rest, sel, k) == tail;
        }
      } else {
        assert Keep(s, key, d) == rest;
      }
    }
  }

  /** Helper: a condition on every index after `j` holds of every element
      after `j`. */
  lemma AllKeyedAfter<T, L>(s: seq<T>, j: nat, sel: T -> L, k: L)
    requires j < |s| && forall m :: j < m < |s| ==> sel(s[m]) == k
    ensures forall y :: y in s[j + 1..] ==> sel(y) == k
  {
    forall y | y in s[j + 1..] ensures sel(y) == k {
      var m :| 0 <= m < |s[j + 1..]| && s[j + 1..][m] == y;
      assert y == s[j + 1 + m];
    }
  }

  /** No two elements of `s` share a key. */
  predicate Distinct<T, K(==)>(s: seq<T>, key: T -> K) {
    forall i, j :: 0 <= i < j < |s| ==> key(s[i]) != key(s[j])
  }

  /** Filtering keeps keys distinct. */
  lemma {:induction false} DropKeepsDistinct<T(!new), K, L>(s: seq<T>, key: T -> K, sel: T -> L, k: L)
    requires Distinct(s, key)
    ensures Distinct(Drop(s, sel, k), key)
  {
    if s != [] {
      DropKeepsDistinct(s[1..], key, sel, k);
      if sel(s[0]) != k {
        var r := Drop(s, sel, k);
        var rest := Drop(s[1..], sel, k);
        assert r == [s[0]] + rest;
        forall j | 0 < j < |r| ensures key(r[0]) != key(r[j]) {
          assert r[j] in s[1..];
        }
      }
    }
  }

  /** Overwriting one element keeps keys distinct when the new key clashes
      with no other element. */
  lemma ReplaceKeepsDistinct<T, K>(s: seq<T>, i: nat, x: T, key: T -> K)
    requires Distinct(s, key) && i < |s|
    requires forall k :: 0 <= k < |s| && k != i ==> key(s[k]) != key(x)
    ensures Distinct(s[i := x], key)
  {
  }

  lemma AppendKeepsDistinct<T, K>(s: seq<T>, x: T, key: T -> K)
    requires Distinct(s, key)
    requires forall k :: 0 <= k < |s| ==> key(s[k]) != key(x)
    ensures Distinct(s + [x], key)
  {
  }

  lemma RemoveKeepsDistinct<T, K>(s: seq<T>, i: nat, key: T -> K)
    requires Distinct(s, key) && i < |s|
    ensures Distinct(s[..i] + s[i + 1..], key)
  {
    var r := s[..i] + s[i + 1..];
    forall a, b | 0 <= a < b < |r| ensures key(r[a]) != key(r[b]) {
      var a', b' := if a < i then a else a + 1, if b < i then b else b + 1;
      assert r[a] == s[a'] && r[b] == s[b'];
    }
  }
}
