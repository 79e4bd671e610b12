/** `hasChangedParent`, `hasChangedChildren` and `isVisible` (tree.js). */
module Visibility {
  import opened Common
  import opened Forest
  import opened TreeStore

  /** The parent walk: does one of the ancestors at depth 1..k show a change? */
  function ChangedAbove(f: seq<Node>, p: Path, k: nat): bool
    requires ValidPath(f, p) && k < |p|
    decreases k
  {
    if k == 0 then false
    else
      PrefixValid(f, p, k);
      ShowsChange(InfoAt(f, p[..k])) || ChangedAbove(f, p, k - 1)
  }

  /** `hasChangedParent` of the node at `p`, walking up from its parent. */
  function HasChangedParent(f: seq<Node>, p: Path): bool
    requires ValidPath(f, p)
  {
    ChangedAbove(f, p, |p| - 1)
  }

  lemma {:induction false} ChangedAboveSpec(f: seq<Node>, p: Path, k: nat)
    requires ValidPath(f, p) && k < |p|
    ensures ChangedAbove(f, p, k) <==>
      exists j :: 0 < j <= k && ValidPath(f, p[..j]) && ShowsChange(InfoAt(f, p[..j]))
    decreases k
  {
    if k > 0 {
      ChangedAboveSpec(f, p, k - 1);
      PrefixValid(f, p, k);
    }
  }

  /** A node has a changed parent exactly when some proper ancestor shows a change. */
  lemma HasChangedParentSpec(f: seq<Node>, p: Path)
    requires ValidPath(f, p)
    ensures HasChangedParent(f, p) <==>
      exists a :: IsAncestor(a, p) && ValidPath(f, a) && ShowsChange(InfoAt(f, a))
  {
    ChangedAboveSpec(f, p, |p| - 1);
    if exists a :: IsAncestor(a, p) && ValidPath(f, a) && ShowsChange(InfoAt(f, a)) {
      var a :| IsAncestor(a, p) && ValidPath(f, a) && ShowsChange(InfoAt(f, a));
      assert p[..|a|] == a;
    }
    if HasChangedParent(f, p) {
      var j :| 0 < j <= |p| - 1 && ValidPath(f, p[..j]) && ShowsChange(InfoAt(f, p[..j]));
      assert IsAncestor(p[..j], p);
    }
  }

  /** `hasChangedChildren`: the node or one of its descendants shows a change. */
  function HasChangedChildren(n: Node): bool
    decreases n, 1
  {
    ShowsChange(n.info) || AnyChangedChildren(n.children)
  }

  function AnyChangedChildren(f: seq<Node>): bool
    decreases f, 0
  {
    |f| > 0 && (HasChangedChildren(f[0]) || AnyChangedChildren(f[1..]))
  }

  lemma {:induction false} HasChangedChildrenFrom(n: Node, q: Path)
    requires ValidIn(n, q) && ShowsChange(Sub(n, q).info)
    ensures HasChangedChildren(n)
    decreases |q|, 1, 0
  {
    if |q| > 0 {
      AnyChangedChildrenFrom(n.children, q);
    }
  }

  lemma {:induction false} AnyChangedChildrenFrom(f: seq<Node>, p: Path)
    requires ValidPath(f, p) && ShowsChange(InfoAt(f, p))
    ensures AnyChangedChildren(f)
    decreases |p|, 0, p[0]
  {
    if p[0] == 0 {
      HasChangedChildrenFrom(f[0], p[1..]);
    } else {
      var p' := [p[0] - 1] + p[1..];
      assert p'[1..] == p[1..];
      AnyChangedChildrenFrom(f[1..], p');
    }
  }

  lemma {:induction false} HasChangedChildrenWitness(n: Node) returns (q: Path)
    requires HasChangedChildren(n)
    ensures ValidIn(n, q) && ShowsChange(Sub(n, q).info)
    decreases n, 1
  {
    if ShowsChange(n.info) {
      q := [];
    } else {
      q := AnyChangedChildrenWitness(n.children);
    }
  }

  lemma {:induction false} AnyChangedChildrenWitness(f: seq<Node>) returns (p: Path)
    requires AnyChangedChildren(f)
    ensures ValidPath(f, p) && ShowsChange(InfoAt(f, p))
    decreases f, 0
  {
    if HasChangedChildren(f[0]) {
      var q := HasChangedChildrenWitness(f[0]);
      p := [0] + q;
      assert p[1..] == q;
    } else {
      var p' := AnyChangedChildrenWitness(f[1..]);
      p := [p'[0] + 1] + p'[1..];
      assert p[1..] == p'[1..];
    }
  }

  /** A node has changed children exactly when it or a descendant shows a
      change; in forest terms, when some path extending its own does. */
  lemma HasChangedChildrenSpec(f: seq<Node>, p: Path)
    requires ValidPath(f, p)
    ensures HasChangedChildren(NodeAt(f, p)) <==>
      exists q :: ValidPath(f, p + q) && ShowsChange(InfoAt(f, p + q))
  {
    var n := NodeAt(f, p);
    if HasChangedChildren(n) {
      var q := HasChangedChildrenWitness(n);
      PathAppend(f, p, q);
    }
    if exists q :: ValidPath(f, p + q) && ShowsChange(InfoAt(f, p + q)) {
      var q :| ValidPath(f, p + q) && ShowsChange(InfoAt(f, p + q));
      PathAppend(f, p, q);
      HasChangedChildrenFrom(n, q);
    }
  }

  /** `isVisible` of the node at `p`. */
  predicate IsVisible(st: Store, p: Path)
    requires ValidPath(st.nodes, p)
  {
    var n := NodeAt(st.nodes, p);
    st.selected == Some(n.info.id) ||
    (n.info.visible &&
     (!st.showChangedOnly || n.info.changed || HasChangedParent(st.nodes, p) || HasChangedChildren(n)))
  }

  /** The rule in terms of the tree: the selected node is always shown; with
      changed-only off a node is shown when its `visible` flag is set; with it
      on, it must also be changed itself or be related to a node that shows a
      change (a proper ancestor, itself, or a descendant). */
  lemma VisibleRule(st: Store, p: Path)
    requires ValidPath(st.nodes, p)
    ensures IsVisible(st, p) <==>
      st.selected == Some(InfoAt(st.nodes, p).id) ||
      (InfoAt(st.nodes, p).visible &&
       (!st.showChangedOnly || InfoAt(st.nodes, p).changed ||
        (exists a :: IsAncestor(a, p) && ValidPath(st.nodes, a) && ShowsChange(InfoAt(st.nodes, a))) ||
        (exists q :: ValidPath(st.nodes, p + q) && ShowsChange(InfoAt(st.nodes, p + q)))))
  {
    HasChangedParentSpec(st.nodes, p);
    HasChangedChildrenSpec(st.nodes, p);
  }

  /** With changed-only on, every ancestor and descendant of a node that shows
      a change stays visible as long as its own `visible` flag is set. */
  lemma RelativesOfChangeVisible(st: Store, c: Path, p: Path)
    requires ValidPath(st.nodes, c) && ShowsChange(InfoAt(st.nodes, c))
    requires ValidPath(st.nodes, p) && InfoAt(st.nodes, p).visible
    requires IsPrefix(p, c) || IsPrefix(c, p)
    ensures IsVisible(st, p)
  {
    VisibleRule(st, p);
    if IsPrefix(p, c) {
      var q := c[|p|..];
      assert p + q == c;
    } else {
      assert IsAncestor(c, p);
    }
  }
}
