/** Vocabulary shared by every part of the model: optional values, record ids,
    timestamps, and the sequence operations the Prisma queries reduce to. */
module Common {

  datatype Option<T> = None | Some(value: T)

  /** Database object ids (MongoDB ObjectIds, as Prisma exposes them: strings). */
  type Id = string

  /** A JavaScript `Date`, as milliseconds since the Unix epoch. */
  type Time = int

  /** No two elements of `s` share a key. */
  predicate UniqueBy<T, K(==)>(s: seq<T>, key: T -> K)
  {
    forall i, j :: 0 <= i < j < |s| ==> key(s[i]) != key(s[j])
  }

  /** No element occurs twice in `s`. */
  predicate Distinct<T(==)>(s: seq<T>)
  {
    forall i, j :: 0 <= i < j < |s| ==> s[i] != s[j]
  }

  /** The set of elements of `s`. */
  function Elements<T>(s: seq<T>): set<T>
  {
    set x | x in s
  }

  /** A duplicate-free sequence has as many elements as its set. */
  lemma {:induction false} DistinctCard<T>(s: seq<T>)
    requires Distinct(s)
    ensures |Elements(s)| == |s|
    decreases |s|
  {
    if s != [] {
      var t := s[1..];
      assert Distinct(t) by {
        forall i, j | 0 <= i < j < |t| ensures t[i] != t[j] {
          assert t[i] == s[i + 1] && t[j] == s[j + 1];
        }
      }
      DistinctCard(t);
      assert s[0] !in t by {
        forall j | 0 <= j < |t| ensures t[j] != s[0] { assert t[j] == s[j + 1]; }
      }
      assert s == [s[0]] + t;
      assert Elements(s) == {s[0]} + Elements(t);
    }
  }

  /** Two key-unique sequences with no key in common concatenate to a key-unique sequence. */
  lemma UniqueConcat<T, K>(a: seq<T>, b: seq<T>, key: T -> K)
    requires UniqueBy(a, key) && UniqueBy(b, key)
    requires forall i, j :: 0 <= i < |a| && 0 <= j < |b| ==> key(a[i]) != key(b[j])
    ensures UniqueBy(a + b, key)
  {
    var c := a + b;
    forall i, j | 0 <= i < j < |c| ensures key(c[i]) != key(c[j]) {
      if j < |a| {
        assert c[i] == a[i] && c[j] == a[j];
      } else if i < |a| {
        assert c[i] == a[i] && c[j] == b[j - |a|];
      } else {
        assert c[i] == b[i - |a|] && c[j] == b[j - |a|];
      }
    }
  }

  /** Appending an element whose key is new keeps keys unique. */
  lemma UniqueAppend<T, K>(a: seq<T>, x: T, key: T -> K)
    requires UniqueBy(a, key)
    requires forall i :: 0 <= i < |a| ==> key(a[i]) != key(x)
    ensures UniqueBy(a + [x], key)
  {
    UniqueConcat(a, [x], key);
  }

  /** With unique keys, two positions holding the same key are the same position. */
  lemma UniqueKeyIndex<T, K>(s: seq<T>, key: T -> K, i: nat, j: nat)
    requires UniqueBy(s, key)
    requires i < |s| && j < |s| && key(s[i]) == key(s[j])
    ensures i == j
  {
  }

  /** A prefix one longer is the prefix with the next element appended. */
  lemma PrefixSnoc<T>(s: seq<T>, i: nat)
    requires i < |s|
    ensures s[..i + 1] == s[..i] + [s[i]]
  {
  }

  /** The elements of `s` that satisfy `p`, in their original order
      (a Prisma `findMany`/`count` with a `where` clause). */
  function Filter<T(!new)>(s: seq<T>, p: T -> bool): (r: seq<T>)
    ensures |r| <= |s|
    ensures forall x :: x in r <==> x in s && p(x)
    ensures forall x :: x in r ==> p(x)
    ensures multiset(r) <= multiset(s)
    decreases |s|
  {
    if s == [] then []
    else
      assert s == [s[0]] + s[1..];
      (if p(s[0]) then [s[0]] else []) + Filter(s[1..], p)
  }

  lemma {:induction false} FilterConcat<T(!new)>(a: seq<T>, b: seq<T>, p: T -> bool)
    ensures Filter(a + b, p) == Filter(a, p) + Filter(b, p)
    decreases |a|
  {
    if a == [] {
      assert a + b == b;
    } else {
      assert (a + b)[1..] == a[1..] + b;
      FilterConcat(a[1..], b, p);
    }
  }

  /** Filtering keeps every element that passes, so a filter that every element passes is the identity. */
  lemma {:induction false} FilterAll<T(!new)>(s: seq<T>, p: T -> bool)
    requires forall x :: x in s ==> p(x)
    ensures Filter(s, p) == s
    decreases |s|
  {
    if s != [] {
      assert forall x :: x in s[1..] ==> x in s;
      FilterAll(s[1..], p);
      assert p(s[0]) by { assert s[0] in s; }
      assert Filter(s, p) == [s[0]] + Filter(s[1..], p);
      assert [s[0]] + s[1..] == s;
    }
  }

  /** A filter keeps every element exactly when every element passes. */
  lemma {:induction false} FilterKeepsAllIff<T(!new)>(s: seq<T>, p: T -> bool)
    ensures |Filter(s, p)| == |s| <==> forall j :: 0 <= j < |s| ==> p(s[j])
    decreases |s|
  {
    if s != [] {
      FilterKeepsAllIff(s[1..], p);
      assert forall j :: 1 <= j < |s| ==> s[j] == s[1..][j - 1];
      assert forall j :: 0 <= j < |s| - 1 ==> s[1..][j] == s[j + 1];
    }
  }

  /** Filtering keeps keys unique: the result is a subsequence. */
  lemma {:induction false} FilterUnique<T(!new), K>(s: seq<T>, p: T -> bool, key: T -> K)
    requires UniqueBy(s, key)
    ensures UniqueBy(Filter(s, p), key)
    decreases |s|
  {
    if s != [] {
      var tail := s[1..];
      assert UniqueBy(tail, key) by {
        forall i, j | 0 <= i < j < |tail| ensures key(tail[i]) != key(tail[j]) {
          assert tail[i] == s[i + 1] && tail[j] == s[j + 1];
        }
      }
      FilterUnique(tail, p, key);
      var rest := Filter(tail, p);
      forall x | x in rest ensures key(x) != key(s[0]) {
        var j :| 0 <= j < |tail| && tail[j] == x;
        assert s[j + 1] == x;
      }
    }
  }

  /** Index of the first element satisfying `p` (Prisma `findUnique`/`findFirst`). */
  function FirstIndex<T>(s: seq<T>, p: T -> bool): (r: Option<nat>)
    ensures r.Some? ==> r.value < |s| && p(s[r.value])
    ensures r.Some? ==> forall j :: 0 <= j < r.value ==> !p(s[j])
    ensures r.None? <==> forall j :: 0 <= j < |s| ==> !p(s[j])
    decreases |s|
  {
    if s == [] then None
    else if p(s[0]) then Some(0)
    else match FirstIndex(s[1..], p)
      case None => None
      case Some(k) => Some(k + 1)
  }

  /** With unique keys, the element found by key is the only one with that key. */
  lemma FirstIndexByUniqueKey<T, K>(s: seq<T>, key: T -> K, k: K, i: nat)
    requires UniqueBy(s, key)
    requires i < |s| && key(s[i]) == k
    ensures FirstIndex(s, x => key(x) == k) == Some(i)
  {
  }

  /** Chooses an id that `used` does not contain: the database's ObjectId
      generator, seen only through its guarantee of freshness. */
  method FreshId(used: set<Id>) returns (id: Id)
    ensures id !in used
  {
    id := "0";
    var rest := used;
    while rest != {}
      invariant rest <= used
      invariant forall u :: u in used - rest ==> |u| < |id|
      decreases |rest|
    {
      var u :| u in rest;
      if |u| >= |id| {
        id := u + "0";
      }
      rest := rest - {u};
    }
  }
}
