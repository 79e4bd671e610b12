/** `prune` (tree.js): the sweep of the mark-and-sweep in `populate`. Marked
    nodes are dropped with their subtrees, and `expandedNodes` loses the ids of
    every marked node visited, including those inside a dropped subtree,
    because a child's list is pruned before the child itself is examined. */
module Pruning {
  import opened Forest
  import opened TreeStore

  /** `removeDeletedNodes`, threading the expansion map through the children
      in order. */
  function PruneList(f: seq<Node>, expanded: map<string, bool>): (r: (seq<Node>, map<string, bool>))
    ensures |r.0| <= |f|
    decreases f, 1
  {
    if |f| == 0 then ([], expanded)
    else
      var (head, e1) := PruneNode(f[0], expanded);
      var (rest, e2) := PruneList(f[1..], e1);
      (head + rest, e2)
  }

  function PruneNode(n: Node, expanded: map<string, bool>): (r: (seq<Node>, map<string, bool>))
    ensures |r.0| <= 1
    decreases n, 0
  {
    var (kids, e1) := PruneList(n.children, expanded);
    if n.info.delete then ([], e1 - {n.info.id}) else ([Node(n.info, kids)], e1)
  }

  /** `prune()` from the top. */
  function Prune(st: Store): (r: Store)
    ensures r.(nodes := st.nodes, expanded := st.expanded) == st
  {
    var (nodes, expanded) := PruneList(st.nodes, st.expanded);
    st.(nodes := nodes, expanded := expanded)
  }

  // ---------------------------------------------------------------------------
  // Which nodes survive

  /** The node at `q` below `n` and every node on the way are unmarked. */
  predicate Survives(n: Node, q: Path)
    decreases q
  {
    !n.info.delete && (|q| == 0 || (q[0] < |n.children| && Survives(n.children[q[0]], q[1..])))
  }

  predicate SurvivesPath(f: seq<Node>, p: Path) {
    |p| > 0 && p[0] < |f| && Survives(f[p[0]], p[1..])
  }

  lemma {:induction false} SurvivesIn(n: Node, q: Path)
    ensures Survives(n, q) <==>
      ValidIn(n, q) && forall k :: 0 <= k <= |q| ==> ValidIn(n, q[..k]) && !Sub(n, q[..k]).info.delete
    decreases q
  {
    if |q| > 0 && q[0] < |n.children| {
      var c := n.children[q[0]];
      SurvivesIn(c, q[1..]);
      forall k | 0 < k <= |q|
        ensures q[..k][1..] == q[1..][..k - 1] && q[..k][0] == q[0]
      {
      }
      assert q[..0] == [];
      if Survives(n, q) {
        forall k | 0 <= k <= |q|
          ensures ValidIn(n, q[..k]) && !Sub(n, q[..k]).info.delete
        {
          if k > 0 {
            assert ValidIn(c, q[1..][..k - 1]);
          }
        }
      }
      if ValidIn(n, q) && forall k :: 0 <= k <= |q| ==> ValidIn(n, q[..k]) && !Sub(n, q[..k]).info.delete {
        forall k | 0 <= k <= |q| - 1
          ensures ValidIn(c, q[1..][..k]) && !Sub(c, q[1..][..k]).info.delete
        {
          assert ValidIn(n, q[..k + 1]);
        }
      }
    } else if |q| > 0 {
      assert !ValidIn(n, q);
    } else {
      assert q[..0] == q;
    }
  }

  /** Every node on the root path of `p`, the node itself included, is unmarked. */
  predicate RootPathUnmarked(f: seq<Node>, p: Path) {
    forall k :: 0 < k <= |p| ==> ValidPath(f, p[..k]) && !InfoAt(f, p[..k]).delete
  }

  /** A path survives exactly when it and all its non-empty prefixes lead to
      unmarked nodes. */
  lemma SurvivesPathSpec(f: seq<Node>, p: Path)
    ensures SurvivesPath(f, p) <==> ValidPath(f, p) && RootPathUnmarked(f, p)
  {
    if |p| > 0 && p[0] < |f| {
      SurvivesIn(f[p[0]], p[1..]);
      forall k | 0 < k <= |p|
        ensures p[..k][1..] == p[1..][..k - 1] && p[..k][0] == p[0]
      {
      }
      if ValidPath(f, p) && RootPathUnmarked(f, p) {
        forall k | 0 <= k <= |p| - 1
          ensures ValidIn(f[p[0]], p[1..][..k]) && !Sub(f[p[0]], p[1..][..k]).info.delete
        {
          assert ValidPath(f, p[..k + 1]);
        }
      }
    }
  }

  lemma {:induction false} FlattenConcat(a: seq<Node>, b: seq<Node>)
    ensures Flatten(a + b) == Flatten(a) + Flatten(b)
    decreases |a|
  {
    if |a| > 0 {
      assert (a + b)[0] == a[0] && (a + b)[1..] == a[1..] + b;
      FlattenConcat(a[1..], b);
    } else {
      assert a + b == b;
    }
  }

  lemma {:induction false} PruneKeptNode(n: Node, e: map<string, bool>, q: Path)
    requires ValidIn(n, q) && Survives(n, q)
    ensures Sub(n, q).info in Flatten(PruneNode(n, e).0)
    decreases |q|, 1, 0
  {
    var (kids, e1) := PruneList(n.children, e);
    FlattenConcat([Node(n.info, kids)], []);
    if |q| > 0 {
      PruneKept(n.children, e, q);
    }
  }

  lemma {:induction false} PruneKept(f: seq<Node>, e: map<string, bool>, p: Path)
    requires ValidPath(f, p) && SurvivesPath(f, p)
    ensures InfoAt(f, p) in Flatten(PruneList(f, e).0)
    decreases |p|, 0, p[0]
  {
    var (head, e1) := PruneNode(f[0], e);
    var (rest, e2) := PruneList(f[1..], e1);
    FlattenConcat(head, rest);
    if p[0] == 0 {
      PruneKeptNode(f[0], e, p[1..]);
    } else {
      var p' := [p[0] - 1] + p[1..];
      assert p'[1..] == p[1..];
      PruneKept(f[1..], e1, p');
    }
  }

  lemma {:induction false} PruneSourceNode(n: Node, e: map<string, bool>, x: Info) returns (q: Path)
    requires x in Flatten(PruneNode(n, e).0)
    ensures ValidIn(n, q) && Survives(n, q) && Sub(n, q).info == x
    decreases n, 0
  {
    var (kids, e1) := PruneList(n.children, e);
    FlattenConcat([Node(n.info, kids)], []);
    if x == n.info {
      q := [];
    } else {
      q := PruneSource(n.children, e, x);
    }
  }

  lemma {:induction false} PruneSource(f: seq<Node>, e: map<string, bool>, x: Info) returns (p: Path)
    requires x in Flatten(PruneList(f, e).0)
    ensures ValidPath(f, p) && SurvivesPath(f, p) && InfoAt(f, p) == x
    decreases f, 1
  {
    var (head, e1) := PruneNode(f[0], e);
    var (rest, e2) := PruneList(f[1..], e1);
    FlattenConcat(head, rest);
    if x in Flatten(head) {
      var q := PruneSourceNode(f[0], e, x);
      p := [0] + q;
      assert p[1..] == q;
    } else {
      var p' := PruneSource(f[1..], e1, x);
      p := [p'[0] + 1] + p'[1..];
      assert p[1..] == p'[1..];
    }
  }

  /** `prune` keeps exactly the nodes whose root path holds no marked node. */
  lemma PruneKeepsExactly(st: Store, x: Info)
    ensures x in Flatten(Prune(st).nodes) <==>
      exists p :: ValidPath(st.nodes, p) && InfoAt(st.nodes, p) == x && RootPathUnmarked(st.nodes, p)
  {
    if x in Flatten(Prune(st).nodes) {
      var p := PruneSource(st.nodes, st.expanded, x);
      SurvivesPathSpec(st.nodes, p);
    }
    if exists p :: ValidPath(st.nodes, p) && InfoAt(st.nodes, p) == x && RootPathUnmarked(st.nodes, p) {
      var p :| ValidPath(st.nodes, p) && InfoAt(st.nodes, p) == x && RootPathUnmarked(st.nodes, p);
      SurvivesPathSpec(st.nodes, p);
      PruneKept(st.nodes, st.expanded, p);
    }
  }

  /** No marked node is left after `prune`. */
  lemma PruneLeavesNoMarked(st: Store, x: Info)
    requires x in Flatten(Prune(st).nodes)
    ensures !x.delete
  {
    var p := PruneSource(st.nodes, st.expanded, x);
    SurvivesPathSpec(st.nodes, p);
    assert p[..|p|] == p;
  }

  // ---------------------------------------------------------------------------
  // Sibling order and the expansion map

  /** Pruning a list is pruning its two halves one after the other, so the
      surviving siblings keep their order. */
  lemma {:induction false} PruneConcat(a: seq<Node>, b: seq<Node>, e: map<string, bool>)
    ensures PruneList(a + b, e) ==
      (PruneList(a, e).0 + PruneList(b, PruneList(a, e).1).0, PruneList(b, PruneList(a, e).1).1)
    decreases |a|
  {
    if |a| == 0 {
      assert a + b == b;
      assert PruneList(a, e) == ([], e);
      assert [] + PruneList(b, e).0 == PruneList(b, e).0;
    } else {
      assert (a + b)[0] == a[0] && (a + b)[1..] == a[1..] + b;
      var (head, e1) := PruneNode(a[0], e);
      PruneConcat(a[1..], b, e1);
      var (x, e2) := PruneList(a[1..], e1);
      var (y, e3) := PruneList(b, e2);
      assert PruneList(a[1..] + b, e1) == (x + y, e3);
      assert PruneList(a + b, e) == (head + (x + y), e3);
      assert PruneList(a, e) == (head + x, e2);
      assert head + (x + y) == (head + x) + y;
    }
  }

  /** The ids of every marked node in the forest. */
  function MarkedIds(f: seq<Node>): set<string> {
    set x | x in Flatten(f) && x.delete :: x.id
  }

  lemma MarkedIdsConcat(a: seq<Node>, b: seq<Node>)
    ensures MarkedIds(a + b) == MarkedIds(a) + MarkedIds(b)
  {
    FlattenConcat(a, b);
  }

  lemma {:induction false} PruneExpandedNode(n: Node, e: map<string, bool>)
    ensures PruneNode(n, e).1 == e - MarkedIds([n])
    decreases n, 0
  {
    PruneExpanded(n.children, e);
    assert Flatten([n]) == Flatten(n.children) + [n.info] + Flatten([]);
    assert MarkedIds([n]) == MarkedIds(n.children) + (if n.info.delete then {n.info.id} else {});
  }

  lemma {:induction false} PruneExpanded(f: seq<Node>, e: map<string, bool>)
    ensures PruneList(f, e).1 == e - MarkedIds(f)
    decreases f, 1
  {
    if |f| > 0 {
      PruneExpandedNode(f[0], e);
      var e1 := PruneNode(f[0], e).1;
      PruneExpanded(f[1..], e1);
      assert f == [f[0]] + f[1..];
      MarkedIdsConcat([f[0]], f[1..]);
    }
  }

  /** `prune` forgets the expansion state of exactly the marked nodes. */
  lemma PruneForgetsMarked(st: Store)
    ensures Prune(st).expanded == st.expanded - MarkedIds(st.nodes)
  {
    PruneExpanded(st.nodes, st.expanded);
  }

  /** A forest with no marked node is left as it is. */
  lemma {:induction false} PruneUnmarked(f: seq<Node>, e: map<string, bool>)
    requires forall x :: x in Flatten(f) ==> !x.delete
    ensures PruneList(f, e) == (f, e)
    decreases f, 1
  {
    if |f| > 0 {
      var n := f[0];
      FlattenConcat([n], f[1..]);
      assert f == [n] + f[1..];
      assert Flatten(f) == Flatten(n.children) + [n.info] + Flatten(f[1..]);
      PruneUnmarked(n.children, e);
      PruneUnmarked(f[1..], e);
    }
  }

  // ---------------------------------------------------------------------------
  // Sibling order

  function Infos(f: seq<Node>): seq<Info> {
    if |f| == 0 then [] else [f[0].info] + Infos(f[1..])
  }

  /** The infos of the unmarked nodes of `f`, in sibling order. */
  function Unmarked(f: seq<Node>): seq<Info> {
    if |f| == 0 then []
    else (if f[0].info.delete then [] else [f[0].info]) + Unmarked(f[1..])
  }

  lemma {:induction false} InfosConcat(a: seq<Node>, b: seq<Node>)
    ensures Infos(a + b) == Infos(a) + Infos(b)
    decreases |a|
  {
    if |a| == 0 {
      assert a + b == b;
    } else {
      assert (a + b)[1..] == a[1..] + b;
      InfosConcat(a[1..], b);
    }
  }

  /** `children.filter` keeps the unmarked siblings in their order. */
  lemma {:induction false} PruneKeepsOrder(f: seq<Node>, e: map<string, bool>)
    ensures Infos(PruneList(f, e).0) == Unmarked(f)
    decreases |f|
  {
    if |f| > 0 {
      var (head, e1) := PruneNode(f[0], e);
      var (rest, e2) := PruneList(f[1..], e1);
      PruneKeepsOrder(f[1..], e1);
      InfosConcat(head, rest);
      assert Infos(head) == if f[0].info.delete then [] else [f[0].info];
    }
  }

  lemma {:induction false} UnmarkedHas(f: seq<Node>, n: Node)
    requires n in f && !n.info.delete
    ensures n.info in Unmarked(f)
    decreases |f|
  {
    if f[0] != n {
      assert n in f[1..];
      UnmarkedHas(f[1..], n);
    }
  }

  lemma {:induction false} InfosHas(f: seq<Node>, x: Info)
    requires x in Infos(f)
    ensures exists n :: n in f && n.info == x
    decreases |f|
  {
    if f[0].info == x {
      assert f[0] in f;
    } else {
      InfosHas(f[1..], x);
      var n :| n in f[1..] && n.info == x;
      assert n in f;
    }
  }

  /** An unmarked sibling survives the sweep with its fields as they were. */
  lemma PruneKeepsUnmarked(f: seq<Node>, e: map<string, bool>, n: Node)
    requires n in f && !n.info.delete
    ensures exists m :: m in PruneList(f, e).0 && m.info == n.info
  {
    UnmarkedHas(f, n);
    PruneKeepsOrder(f, e);
    InfosHas(PruneList(f, e).0, n.info);
  }
}
