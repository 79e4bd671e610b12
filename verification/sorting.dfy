/** `sortNodes` (tree.js): siblings ordered by label, largest first. JS compares
    strings by UTF-16 code unit, which is the lexicographic order on `char`s. */
module Sorting {
  import opened Forest

  /** JS `a < b` on strings. */
  predicate StrLess(a: string, b: string)
    decreases |a|
  {
    if |a| == 0 then |b| > 0
    else if |b| == 0 then false
    else if a[0] != b[0] then a[0] < b[0]
    else StrLess(a[1..], b[1..])
  }

  lemma {:induction false} StrLessIrreflexive(a: string)
    ensures !StrLess(a, a)
    decreases |a|
  {
    if |a| > 0 {
      StrLessIrreflexive(a[1..]);
    }
  }

  lemma {:induction false} StrLessAsymmetric(a: string, b: string)
    ensures StrLess(a, b) ==> !StrLess(b, a)
    decreases |a|
  {
    if |a| > 0 && |b| > 0 && a[0] == b[0] {
      StrLessAsymmetric(a[1..], b[1..]);
    }
  }

  lemma {:induction false} StrLessTransitive(a: string, b: string, c: string)
    ensures StrLess(a, b) && StrLess(b, c) ==> StrLess(a, c)
    decreases |a|
  {
    if |a| > 0 && |b| > 0 && |c| > 0 && a[0] == b[0] == c[0] {
      StrLessTransitive(a[1..], b[1..], c[1..]);
    }
  }

  /** Distinct strings are always ordered one way or the other. */
  lemma {:induction false} StrLessTotal(a: string, b: string)
    ensures a == b || StrLess(a, b) || StrLess(b, a)
    decreases |a|
  {
    if |a| > 0 && |b| > 0 && a[0] == b[0] {
      StrLessTotal(a[1..], b[1..]);
      if a[1..] == b[1..] {
        assert a == [a[0]] + a[1..] && b == [b[0]] + b[1..];
      }
    }
  }

  /** "Not less than" is transitive: the order the comparator sorts by. */
  lemma AtLeastTransitive(a: string, b: string, c: string)
    requires !StrLess(a, b) && !StrLess(b, c)
    ensures !StrLess(a, c)
  {
    StrLessTotal(a, b);
    StrLessTotal(b, c);
    StrLessTransitive(c, b, a);
    StrLessAsymmetric(c, a);
  }

  /** Sibling labels never increase along the list. */
  predicate SortedDesc(s: seq<Node>) {
    forall i, j :: 0 <= i < j < |s| ==> !StrLess(s[i].info.title, s[j].info.title)
  }

  function Insert(x: Node, s: seq<Node>): (r: seq<Node>)
    ensures |r| == |s| + 1
    decreases |s|
  {
    if |s| == 0 || !StrLess(x.info.title, s[0].info.title) then [x] + s
    else [s[0]] + Insert(x, s[1..])
  }

  lemma {:induction false} InsertSorted(x: Node, s: seq<Node>)
    requires SortedDesc(s)
    ensures SortedDesc(Insert(x, s))
    decreases |s|
  {
    if |s| == 0 {
    } else if !StrLess(x.info.title, s[0].info.title) {
      var r := [x] + s;
      forall i, j | 0 <= i < j < |r|
        ensures !StrLess(r[i].info.title, r[j].info.title)
      {
        if i == 0 && j > 1 {
          AtLeastTransitive(x.info.title, s[0].info.title, s[j - 1].info.title);
        }
      }
    } else {
      var t := Insert(x, s[1..]);
      InsertSorted(x, s[1..]);
      InsertMembers(x, s[1..]);
      var r := [s[0]] + t;
      forall i, j | 0 <= i < j < |r|
        ensures !StrLess(r[i].info.title, r[j].info.title)
      {
        if i == 0 {
          var y := t[j - 1];
          assert y in t;
          if y == x {
            StrLessAsymmetric(x.info.title, s[0].info.title);
          } else {
            var k :| 0 <= k < |s[1..]| && s[1..][k] == y;
            assert y == s[k + 1];
          }
        }
      }
    }
  }

  /** `nodes.sort(sortNodes)`, specified by its result: modelled as insertion
      sort, one admissible order for siblings whose labels tie. */
  function SortDesc(s: seq<Node>): (r: seq<Node>)
    ensures |r| == |s|
    decreases |s|
  {
    if |s| == 0 then [] else Insert(s[|s| - 1], SortDesc(s[..|s| - 1]))
  }

  /** Sorting is a permutation with non-increasing labels. */
  lemma {:induction false} SortDescCorrect(s: seq<Node>)
    ensures SortedDesc(SortDesc(s))
    ensures multiset(SortDesc(s)) == multiset(s)
    decreases |s|
  {
    if |s| > 0 {
      SortDescCorrect(s[..|s| - 1]);
      InsertSorted(s[|s| - 1], SortDesc(s[..|s| - 1]));
      InsertCount(s[|s| - 1], SortDesc(s[..|s| - 1]));
      assert s == s[..|s| - 1] + [s[|s| - 1]];
    }
  }

  /** Two nodes `locateNode` would confuse: same type and same value. */
  predicate SameKey(a: Node, b: Node) {
    a.info.typ == b.info.typ && a.info.value == b.info.value
  }

  predicate DistinctKeys(s: seq<Node>) {
    forall i, j :: 0 <= i < j < |s| ==> !SameKey(s[i], s[j])
  }

  lemma {:induction false} InsertDistinct(x: Node, s: seq<Node>)
    requires DistinctKeys(s) && forall j :: 0 <= j < |s| ==> !SameKey(s[j], x)
    ensures DistinctKeys(Insert(x, s))
    decreases |s|
  {
    if |s| > 0 && StrLess(x.info.title, s[0].info.title) {
      var t := Insert(x, s[1..]);
      InsertDistinct(x, s[1..]);
      InsertMembers(x, s[1..]);
      var r := [s[0]] + t;
      forall i, j | 0 <= i < j < |r|
        ensures !SameKey(r[i], r[j])
      {
        if i == 0 {
          assert r[j] in t;
          if r[j] != x {
            var k :| 0 <= k < |s[1..]| && s[1..][k] == r[j];
            assert s[k + 1] == r[j];
          }
        }
      }
    }
  }

  lemma InsertMembers(x: Node, s: seq<Node>)
    ensures forall y :: y in Insert(x, s) <==> y == x || y in s
  {
    InsertCount(x, s);
  }

  lemma {:induction false} InsertCount(x: Node, s: seq<Node>)
    ensures multiset(Insert(x, s)) == multiset(s) + multiset{x}
    decreases |s|
  {
    if |s| > 0 {
      InsertCount(x, s[1..]);
      assert s == [s[0]] + s[1..];
    }
  }

  /** Sorting keeps the nodes' keys pairwise distinct. */
  lemma {:induction false} SortDescDistinct(s: seq<Node>)
    requires DistinctKeys(s)
    ensures DistinctKeys(SortDesc(s))
    decreases |s|
  {
    if |s| > 0 {
      var pre := s[..|s| - 1];
      var x := s[|s| - 1];
      SortDescDistinct(pre);
      SortDescCorrect(pre);
      forall j | 0 <= j < |SortDesc(pre)|
        ensures !SameKey(SortDesc(pre)[j], x)
      {
        var y := SortDesc(pre)[j];
        assert y in multiset(pre);
        var k :| 0 <= k < |pre| && pre[k] == y;
      }
      InsertDistinct(x, SortDesc(pre));
    }
  }
}
