/**
 * Generic operations on the record lists, after the array methods the store
 * uses: `filter`, `findIndex`, `find` and `some`.
 */
module Seqs {
  import opened Wrappers

  /** The elements of `s` that satisfy `keep`, in their original order (`Array.prototype.filter`). */
  function Filter<T(!new)>(s: seq<T>, keep: T -> bool): (r: seq<T>)
    ensures |r| <= |s|
    ensures forall x :: x in r <==> x in s && keep(x)
  {
    if s == [] then []
    else
      assert s == [s[0]] + s[1..];
      if keep(s[0]) then [s[0]] + Filter(s[1..], keep) else Filter(s[1..], keep)
  }

  /** The index of the first element that satisfies `p` (`Array.prototype.findIndex`); None stands for -1. */
  function FirstIndex<T>(s: seq<T>, p: T -> bool): (r: Option<nat>)
    ensures r.Some? ==> r.value < |s| && p(s[r.value]) && forall j :: 0 <= j < r.value ==> !p(s[j])
    ensures r.None? ==> forall j :: 0 <= j < |s| ==> !p(s[j])
  {
    if s == [] then None
    else if p(s[0]) then Some(0)
    else match FirstIndex(s[1..], p)
      case Some(i) => Some(i + 1)
      case None => None
  }

  /** Some element has key `k` (`find(x => key(x) === k)` is truthy, or `some` holds). */
  predicate HasKey<T>(s: seq<T>, key: T -> string, k: string)
  {
    exists j :: 0 <= j < |s| && key(s[j]) == k
  }

  /** The position of the element with key `k` (`findIndex(x => key(x) === k)` when it is found). */
  function IndexOfKey<T>(s: seq<T>, key: T -> string, k: string): (i: nat)
    requires HasKey(s, key, k)
    ensures i < |s| && key(s[i]) == k
    ensures forall j :: 0 <= j < i ==> key(s[j]) != k
  {
    var r := FirstIndex(s, x => key(x) == k);
    assert r.Some? by {
      var j :| 0 <= j < |s| && key(s[j]) == k;
    }
    r.value
  }

  /** No two positions of `s` carry the same key. */
  ghost predicate Distinct<T>(s: seq<T>, key: T -> string)
  {
    forall i, j :: 0 <= i < j < |s| ==> key(s[i]) != key(s[j])
  }

  /** Keys are distinct and none is empty (a generated id is never the empty string). */
  ghost predicate Keyed<T>(s: seq<T>, key: T -> string)
  {
    Distinct(s, key) && forall j :: 0 <= j < |s| ==> key(s[j]) != ""
  }

  /** `k` is a key a generator may hand out next: non-empty and not yet used. */
  predicate Fresh<T>(s: seq<T>, key: T -> string, k: string)
  {
    k != "" && !HasKey(s, key, k)
  }

  /** Filtering distributes over concatenation. */
  lemma {:induction false} FilterAppend<T(!new)>(a: seq<T>, b: seq<T>, keep: T -> bool)
    ensures Filter(a + b, keep) == Filter(a, keep) + Filter(b, keep)
  {
    if a == [] {
      assert a + b == b;
    } else {
      assert (a + b)[0] == a[0];
      assert (a + b)[1..] == a[1..] + b;
      FilterAppend(a[1..], b, keep);
    }
  }

  /** A filter that drops nothing returns its input. */
  lemma {:induction false} FilterKeepsAll<T(!new)>(s: seq<T>, keep: T -> bool)
    requires forall j :: 0 <= j < |s| ==> keep(s[j])
    ensures Filter(s, keep) == s
  {
    if s != [] {
      FilterKeepsAll(s[1..], keep);
    }
  }

  /** When exactly the element at `i` fails `keep`, filtering removes it and keeps the rest in order. */
  lemma {:induction false} FilterRemovesOne<T(!new)>(s: seq<T>, keep: T -> bool, i: nat)
    requires i < |s| && !keep(s[i])
    requires forall j :: 0 <= j < |s| && j != i ==> keep(s[j])
    ensures Filter(s, keep) == s[..i] + s[i + 1..]
  {
    if i == 0 {
      FilterKeepsAll(s[1..], keep);
    } else {
      FilterRemovesOne(s[1..], keep, i - 1);
      assert s[..i] == [s[0]] + s[1..][..i - 1];
      assert s[i + 1..] == s[1..][i..];
    }
  }

  /** Filtering never makes two elements share a key. */
  lemma {:induction false} FilterDistinct<T(!new)>(s: seq<T>, keep: T -> bool, key: T -> string)
    requires Distinct(s, key)
    ensures Distinct(Filter(s, keep), key)
  {
    if s != [] {
      var rest := Filter(s[1..], keep);
      FilterDistinct(s[1..], keep, key);
      if keep(s[0]) {
        forall x | x in rest
          ensures key(x) != key(s[0])
        {
          var j :| 0 <= j < |s[1..]| && s[1..][j] == x;
          assert s[j + 1] == x;
        }
        var r := [s[0]] + rest;
        forall i, j | 0 <= i < j < |r|
          ensures key(r[i]) != key(r[j])
        {
          if i == 0 {
            assert r[j] in rest;
          } else {
            assert r[i] == rest[i - 1] && r[j] == rest[j - 1];
          }
        }
      }
    }
  }

  /** `f` applied to each element, keeping the defined results, in order (a `forEach` that pushes some values). */
  function FilterMap<A, B>(s: seq<A>, f: A -> Option<B>): (r: seq<B>)
    ensures |r| <= |s|
    // Every defined result is kept, and every kept value is a defined result.
    ensures forall k :: 0 <= k < |s| && f(s[k]).Some? ==> f(s[k]).value in r
    ensures forall i :: 0 <= i < |r| ==> exists k :: 0 <= k < |s| && f(s[k]) == Some(r[i])
  {
    if s == [] then []
    else
      var init := s[..|s| - 1];
      var last := f(s[|s| - 1]);
      assert forall k :: 0 <= k < |init| ==> init[k] == s[k];
      FilterMap(init, f) + if last.Some? then [last.value] else []
  }

  /** The kept values come in the order of the elements they come from. */
  lemma {:induction false} FilterMapAppend<A, B>(a: seq<A>, b: seq<A>, f: A -> Option<B>)
    ensures FilterMap(a + b, f) == FilterMap(a, f) + FilterMap(b, f)
  {
    if b == [] {
      assert a + b == a;
    } else {
      var s := a + b;
      assert s[..|s| - 1] == a + b[..|b| - 1];
      assert s[|s| - 1] == b[|b| - 1];
      FilterMapAppend(a, b[..|b| - 1], f);
    }
  }

  /** Nothing is kept exactly when `f` is undefined on every element. */
  lemma {:induction false} FilterMapEmpty<A, B>(s: seq<A>, f: A -> Option<B>)
    ensures FilterMap(s, f) == [] <==> forall k :: 0 <= k < |s| ==> f(s[k]).None?
  {
    if s != [] {
      var init := s[..|s| - 1];
      FilterMapEmpty(init, f);
      assert forall k :: 0 <= k < |init| ==> init[k] == s[k];
    }
  }

  /** What holds of every defined result of `f` holds of every kept value. */
  lemma {:induction false} FilterMapAll<A, B>(s: seq<A>, f: A -> Option<B>, P: B -> bool)
    requires forall k :: 0 <= k < |s| && f(s[k]).Some? ==> P(f(s[k]).value)
    ensures forall k :: 0 <= k < |FilterMap(s, f)| ==> P(FilterMap(s, f)[k])
  {
    if s != [] {
      var init := s[..|s| - 1];
      assert forall k :: 0 <= k < |init| ==> init[k] == s[k];
      FilterMapAll(init, f, P);
    }
  }

  /** `s.filter(x => key(x) !== k)`: every element whose key is not `k`, in order. */
  function Without<T(!new)>(s: seq<T>, key: T -> string, k: string): (r: seq<T>)
    ensures |r| <= |s|
    ensures forall x :: x in r <==> x in s && key(x) != k
  {
    Filter(s, x => key(x) != k)
  }

  /** With distinct keys, removing a present key drops exactly its element and keeps the others in order. */
  lemma WithoutOne<T(!new)>(s: seq<T>, key: T -> string, k: string)
    requires Distinct(s, key) && HasKey(s, key, k)
    ensures var i := IndexOfKey(s, key, k); Without(s, key, k) == s[..i] + s[i + 1..]
  {
    var i := IndexOfKey(s, key, k);
    forall j | 0 <= j < |s| && j != i
      ensures key(s[j]) != k
    {
      if j < i {
      } else {
        assert key(s[i]) != key(s[j]);
      }
    }
    FilterRemovesOne(s, x => key(x) != k, i);
  }

  /** Removing elements keeps keys distinct and non-empty. */
  lemma WithoutKeyed<T(!new)>(s: seq<T>, key: T -> string, k: string, other: T -> string)
    requires Keyed(s, other)
    ensures Keyed(Without(s, key, k), other)
  {
    FilterDistinct(s, x => key(x) != k, other);
    var r := Without(s, key, k);
    forall j | 0 <= j < |r|
      ensures other(r[j]) != ""
    {
      assert r[j] in s;
    }
  }

  /** Appending an element under a fresh key keeps the keys distinct and non-empty. */
  lemma KeyedAppend<T>(s: seq<T>, key: T -> string, x: T)
    requires Keyed(s, key) && Fresh(s, key, key(x))
    ensures Keyed(s + [x], key)
  {
    var t := s + [x];
    forall i, j | 0 <= i < j < |t|
      ensures key(t[i]) != key(t[j])
    {
      if j == |s| {
        assert t[i] == s[i];
        assert !(0 <= i < |s| && key(s[i]) == key(x));
      }
    }
  }

  /** Replacing an element by one with the same key keeps the keys distinct and non-empty. */
  lemma KeyedUpdate<T>(s: seq<T>, key: T -> string, i: nat, x: T)
    requires Keyed(s, key) && i < |s| && key(x) == key(s[i])
    ensures Keyed(s[i := x], key)
  {
  }

  /** Replacing an element by one whose key no other element has keeps the keys distinct. */
  lemma DistinctUpdate<T>(s: seq<T>, key: T -> string, i: nat, x: T)
    requires Distinct(s, key) && i < |s|
    requires forall j :: 0 <= j < |s| && j != i ==> key(s[j]) != key(x)
    ensures Distinct(s[i := x], key)
  {
  }

  /** Appending an element whose key is new keeps the keys distinct. */
  lemma DistinctAppend<T>(s: seq<T>, key: T -> string, x: T)
    requires Distinct(s, key) && !HasKey(s, key, key(x))
    ensures Distinct(s + [x], key)
  {
    var t := s + [x];
    forall i, j | 0 <= i < j < |t|
      ensures key(t[i]) != key(t[j])
    {
      if j == |s| {
        assert t[i] == s[i];
      }
    }
  }
}
