/** Searching sequences: the "first row that matches" shape shared by the store's lookups and the importer's scans. */
module Seqs {
  import opened Wrappers

  /** Index of the first element satisfying `p`, if any. */
  function FirstIndex<T>(s: seq<T>, p: T -> bool): (r: Option<nat>)
    ensures r.Some? ==> r.value < |s| && p(s[r.value])
    ensures r.Some? ==> forall j :: 0 <= j < r.value ==> !p(s[j])
    ensures r.None? ==> forall j :: 0 <= j < |s| ==> !p(s[j])
  {
    if s == [] then None
    else if p(s[0]) then Some(0)
    else match FirstIndex(s[1..], p)
      case None => None
      case Some(i) => Some(i + 1)
  }

  /** Appending rows never changes which row is the first match, once one exists. */
  lemma {:induction false} FirstIndexAppend<T>(s: seq<T>, more: seq<T>, p: T -> bool)
    requires FirstIndex(s, p).Some?
    ensures FirstIndex(s + more, p) == FirstIndex(s, p)
  {
    if !p(s[0]) {
      assert (s + more)[1..] == s[1..] + more;
      FirstIndexAppend(s[1..], more, p);
    }
  }

  /** Index of the last occurrence of `c` in `s`, if any. */
  function LastIndexOf(s: string, c: char): (r: Option<nat>)
    ensures r.Some? ==> r.value < |s| && s[r.value] == c
    ensures r.Some? ==> forall j :: r.value < j < |s| ==> s[j] != c
    ensures r.None? ==> forall j :: 0 <= j < |s| ==> s[j] != c
  {
    if s == [] then None
    else if s[|s| - 1] == c then Some(|s| - 1)
    else LastIndexOf(s[..|s| - 1], c)
  }

  /** Index of the first occurrence of `x` in `s`, if any. */
  function IndexOf<T(==)>(s: seq<T>, x: T): (r: Option<nat>)
    ensures r.Some? ==> r.value < |s| && s[r.value] == x
    ensures r.None? ==> x !in s
  {
    if s == [] then None
    else if s[0] == x then Some(0)
    else match IndexOf(s[1..], x)
      case None => None
      case Some(i) => Some(i + 1)
  }

  /** Elements of `s` are pairwise different. */
  predicate Distinct<T(==)>(s: seq<T>) {
    forall i, j :: 0 <= i < j < |s| ==> s[i] != s[j]
  }

  /**
   * Association lists model PHP arrays whose iteration order matters: the
   * position of a key, the value stored under it, and assignment.
   */
  function KeyPos<K(==,!new), V>(a: seq<(K, V)>, k: K): (r: Option<nat>)
    ensures r.Some? ==> r.value < |a| && a[r.value].0 == k
    ensures r.Some? ==> forall j :: 0 <= j < r.value ==> a[j].0 != k
    ensures r.None? ==> forall j :: 0 <= j < |a| ==> a[j].0 != k
  {
    FirstIndex(a, (e: (K, V)) => e.0 == k)
  }

  function Get<K(==,!new), V>(a: seq<(K, V)>, k: K): Option<V> {
    match KeyPos(a, k)
    case Some(i) => Some(a[i].1)
    case None => None
  }

  /** `$a[k] = v`: a key already present keeps its place and takes the new value; a new key goes last. */
  function Put<K(==,!new), V>(a: seq<(K, V)>, k: K, v: V): (r: seq<(K, V)>)
    ensures Get(r, k) == Some(v)
    ensures forall k' :: k' != k ==> Get(r, k') == Get(a, k')
    ensures KeyPos(a, k).None? ==> r == a + [(k, v)]
    ensures KeyPos(a, k).Some? ==> |r| == |a| && forall j :: 0 <= j < |a| ==> r[j].0 == a[j].0
  {
    match KeyPos(a, k)
    case Some(i) =>
      var r := a[i := (k, v)];
      assert KeyPos(r, k) == Some(i) by {
        var q := KeyPos(r, k);
        assert r[i].0 == k;
      }
      forall k' | k' != k ensures Get(r, k') == Get(a, k') {
        assert forall j :: 0 <= j < |a| ==> r[j].0 == a[j].0;
        var q := KeyPos(a, k');
        if q.Some? {
          assert r[q.value].0 == k';
          assert KeyPos(r, k') == q;
        } else {
          assert KeyPos(r, k').None?;
        }
      }
      r
    case None =>
      var r := a + [(k, v)];
      assert KeyPos(r, k) == Some(|a|) by {
        assert r[|a|].0 == k;
      }
      forall k' | k' != k ensures Get(r, k') == Get(a, k') {
        var q := KeyPos(a, k');
        if q.Some? {
          assert r[q.value] == a[q.value];
          assert KeyPos(r, k') == q;
        } else {
          assert KeyPos(r, k').None?;
        }
      }
      r
  }
}
