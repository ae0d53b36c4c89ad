/**
 * The two orders the importer imposes on keyed tables: comments are replayed
 * in ascending foreign id (ksort), remapped URLs are applied longest first
 * (uksort with cmpr_strlen).
 */
module Ordering {

  /** A set of keys is empty or has a member, so that callers can pick one. */
  lemma NonEmptyHasKey(s: set<int>)
    ensures s == {} || exists y :: y in s
  {
    if forall y :: y !in s {
      assert forall y :: y in s <==> y in {};
    }
  }

  /** A set of URLs is empty or has a member, so that callers can pick one. */
  lemma NonEmptyHasUrl(s: set<string>)
    ensures s == {} || exists y :: y in s
  {
    if forall y :: y !in s {
      assert forall y :: y in s <==> y in {};
    }
  }

  /**
   * The comparator handed to uksort for the URL table: negative when `a`
   * must come before `b`, that is when `a` is the longer string.
   */
  function CmprStrlen(a: string, b: string): (r: int)
    ensures r < 0 <==> |a| > |b|
    ensures r == 0 <==> |a| == |b|
  {
    |b| - |a|
  }

  /** Every non-empty table of URLs has a longest entry. */
  lemma {:induction false} LongestExists(s: set<string>)
    requires s != {}
    ensures exists u :: u in s && forall v :: v in s ==> |v| <= |u|
    decreases |s|
  {
    NonEmptyHasUrl(s);
    var x :| x in s;
    var rest := s - {x};
    if rest == {} {
      OnlyElement(s, x);
    } else {
      LongestExists(rest);
      var u :| u in rest && forall v :: v in rest ==> |v| <= |u|;
      LongerOfTwo(s, x, u);
    }
  }

  lemma OnlyElement(s: set<string>, x: string)
    requires x in s && s - {x} == {}
    ensures forall v :: v in s ==> |v| <= |x|
  {
    forall v | v in s ensures v == x {
      assert v !in s - {x};
    }
  }

  lemma LongerOfTwo(s: set<string>, x: string, u: string)
    requires x in s && u in s - {x} && forall v :: v in s - {x} ==> |v| <= |u|
    ensures var w := if |x| > |u| then x else u;
      w in s && forall v :: v in s ==> |v| <= |w|
  {
    forall v | v in s && v != x ensures |v| <= |u| {
      assert v in s - {x};
    }
  }

  /** Hence every non-empty table of URLs has an entry that uksort with CmprStrlen may put first. */
  lemma FirstUnderCmprStrlenExists(s: set<string>)
    requires s != {}
    ensures exists u :: u in s && forall v :: v in s ==> CmprStrlen(u, v) <= 0
  {
    LongestExists(s);
    var u :| u in s && forall v :: v in s ==> |v| <= |u|;
    assert forall v :: v in s ==> CmprStrlen(u, v) <= 0;
  }

  /** Every non-empty set of integer keys has a least element. */
  lemma {:induction false} LeastExists(s: set<int>)
    requires s != {}
    ensures exists m :: IsLeast(m, s)
    decreases |s|
  {
    NonEmptyHasKey(s);
    var y :| y in s;
    var rest := s - {y};
    if rest == {} {
      forall x | x in s ensures y <= x {
        assert x == y || x in rest;
      }
      assert IsLeast(y, s);
    } else {
      LeastExists(rest);
      var m :| IsLeast(m, rest);
      var w := if y < m then y else m;
      forall x | x in s ensures w <= x {
        assert x == y || x in rest;
      }
      assert IsLeast(w, s);
    }
  }

  ghost predicate IsLeast(m: int, s: set<int>) {
    m in s && forall x :: x in s ==> m <= x
  }

  ghost function Least(s: set<int>): (m: int)
    requires s != {}
    ensures m in s && forall x :: x in s ==> m <= x
  {
    LeastExists(s);
    var m :| IsLeast(m, s); m
  }

  ghost predicate StrictlyIncreasing(r: seq<int>) {
    forall i, j :: 0 <= i < j < |r| ==> r[i] < r[j]
  }

  /** The keys of a set in ascending order: the order a foreach visits them after ksort. */
  ghost function Ascending(s: set<int>): (r: seq<int>)
    ensures StrictlyIncreasing(r)
    ensures forall x :: x in s <==> x in r
    ensures |r| == |s|
    decreases |s|
  {
    if s == {} then []
    else
      var m := Least(s);
      var rest := Ascending(s - {m});
      assert forall x :: x in rest ==> m < x;
      [m] + rest
  }

  lemma HeadIsLeast(r: seq<int>)
    requires StrictlyIncreasing(r) && r != []
    ensures forall x :: x in r[1..] ==> r[0] < x
  {
    forall x | x in r[1..] ensures r[0] < x {
      var i :| 0 <= i < |r[1..]| && r[1..][i] == x;
      assert r[i + 1] == x;
    }
  }

  /** Ascending order is the only strictly increasing listing of a key set. */
  lemma {:induction false} AscendingUnique(r: seq<int>, s: set<int>)
    requires StrictlyIncreasing(r)
    requires forall x :: x in s <==> x in r
    ensures r == Ascending(s)
    decreases |r|
  {
    if r == [] {
      forall x ensures x !in s {
        assert x in s <==> x in r;
      }
      assert s == {};
    } else {
      assert r == [r[0]] + r[1..];
      HeadIsLeast(r);
      assert r[0] in s by { assert r[0] in r; }
      var m := Least(s);
      assert m in r;
      assert r[0] == m;
      var rest := s - {m};
      assert forall x :: x in rest <==> x in r[1..];
      assert StrictlyIncreasing(r[1..]) by {
        forall i, j | 0 <= i < j < |r[1..]| ensures r[1..][i] < r[1..][j] {
          assert r[1..][i] == r[i + 1] && r[1..][j] == r[j + 1];
        }
      }
      AscendingUnique(r[1..], rest);
    }
  }
}
