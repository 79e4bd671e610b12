/** The shape invariant the node store keeps: in every child list, labels
    never increase, no two siblings share type and value (so `locateNode`
    finds at most one), and no id contains a '.'. */
module WellFormed {
  import opened Common
  import opened Forest
  import opened Sorting
  import opened Pruning

  predicate SiblingsOk(f: seq<Node>) {
    SortedDesc(f) && DistinctKeys(f) && forall i :: 0 <= i < |f| ==> '.' !in f[i].info.id
  }

  predicate WF(f: seq<Node>)
    decreases f
  {
    SiblingsOk(f) && forall i :: 0 <= i < |f| ==> WF(f[i].children)
  }

  /** The fields the invariant reads. */
  predicate SameKeys(a: Info, b: Info) {
    a.title == b.title && a.typ == b.typ && a.value == b.value && a.id == b.id
  }

  /** A callback of `forEachNode` that leaves those fields alone. */
  ghost predicate KeepsKeys(g: Info -> Info) {
    forall i :: SameKeys(g(i), i)
  }

  lemma SiblingsOkSameKeys(f: seq<Node>, g: seq<Node>)
    requires |f| == |g| && forall i :: 0 <= i < |f| ==> SameKeys(f[i].info, g[i].info)
    ensures SiblingsOk(f) <==> SiblingsOk(g)
  {
  }

  lemma {:induction false} MapAllWF(f: seq<Node>, g: Info -> Info)
    requires WF(f) && KeepsKeys(g)
    ensures WF(MapAll(f, g))
    decreases f
  {
    var r := MapAll(f, g);
    forall i | 0 <= i < |f|
      ensures SameKeys(r[i].info, f[i].info) && WF(r[i].children)
    {
      MapAllChild(f, g, i);
      MapAllWF(f[i].children, g);
    }
    SiblingsOkSameKeys(r, f);
  }

  lemma {:induction false} MapAlongWF(f: seq<Node>, p: Path, anc: Info -> Info, self: Info -> Info,
                                      desc: Info -> Info)
    requires WF(f) && KeepsKeys(anc) && KeepsKeys(self) && KeepsKeys(desc)
    ensures WF(MapAlong(f, p, anc, self, desc))
    decreases |p|
  {
    if |p| > 0 && p[0] < |f| {
      var r := MapAlong(f, p, anc, self, desc);
      var n := f[p[0]];
      if |p| == 1 {
        MapAllWF(n.children, desc);
      } else {
        MapAlongWF(n.children, p[1..], anc, self, desc);
      }
      assert r[p[0]] == MapAlongNode(n, p[1..], anc, self, desc);
      assert forall i :: 0 <= i < |f| && i != p[0] ==> r[i] == f[i];
      SiblingsOkSameKeys(r, f);
    }
  }

  lemma {:induction false} SetChildrenWF(f: seq<Node>, p: Path, kids: seq<Node>)
    requires WF(f) && WF(kids)
    ensures WF(SetChildren(f, p, kids))
    decreases |p|
  {
    if |p| > 0 && p[0] < |f| {
      var r := SetChildren(f, p, kids);
      if |p| > 1 {
        SetChildrenWF(f[p[0]].children, p[1..], kids);
      }
      assert forall i :: 0 <= i < |f| && i != p[0] ==> r[i] == f[i];
      SiblingsOkSameKeys(r, f);
    }
  }

  lemma {:induction false} ListAtWF(f: seq<Node>, at: Option<Path>)
    requires WF(f)
    ensures WF(ListAt(f, at))
  {
    if at.Some? && ValidPath(f, at.value) {
      SubWF(f[at.value[0]], at.value[1..]);
    }
  }

  lemma {:induction false} SubWF(n: Node, q: Path)
    requires WF(n.children) && ValidIn(n, q)
    ensures WF(Sub(n, q).children)
    decreases q
  {
    if |q| > 0 {
      SubWF(n.children[q[0]], q[1..]);
    }
  }

  lemma AppendDistinct(list: seq<Node>, node: Node)
    requires DistinctKeys(list)
    requires forall j :: 0 <= j < |list| ==> !SameKey(list[j], node)
    ensures DistinctKeys(list + [node])
  {
    var s := list + [node];
    forall i, j | 0 <= i < j < |s|
      ensures !SameKey(s[i], s[j])
    {
      if j == |list| {
        assert s[j] == node && s[i] == list[i];
      } else {
        assert s[i] == list[i] && s[j] == list[j];
      }
    }
  }

  lemma SortDescMembers(s: seq<Node>)
    ensures forall y :: y in SortDesc(s) ==> y in s
  {
    SortDescCorrect(s);
    forall y | y in SortDesc(s)
      ensures y in s
    {
      assert y in multiset(SortDesc(s));
    }
  }

  /** Adding a childless node with a new key and a dot-free id, then sorting,
      keeps a list well formed. */
  lemma InsertWF(list: seq<Node>, node: Node)
    requires WF(list) && node.children == [] && '.' !in node.info.id
    requires forall j :: 0 <= j < |list| ==> !SameKey(list[j], node)
    ensures WF(SortDesc(list + [node]))
  {
    var s := list + [node];
    AppendDistinct(list, node);
    SortDescCorrect(s);
    SortDescDistinct(s);
    SortDescMembers(s);
    var r := SortDesc(s);
    forall i | 0 <= i < |r|
      ensures '.' !in r[i].info.id && WF(r[i].children)
    {
      assert r[i] in s;
      if r[i] != node {
        assert r[i] in list;
      }
    }
  }

  lemma {:induction false} PruneInfosFrom(f: seq<Node>, e: map<string, bool>)
    ensures forall y :: y in PruneList(f, e).0 ==> exists j :: 0 <= j < |f| && y.info == f[j].info
    decreases |f|
  {
    if |f| > 0 {
      var (head, e1) := PruneNode(f[0], e);
      PruneInfosFrom(f[1..], e1);
      forall y | y in PruneList(f, e).0
        ensures exists j :: 0 <= j < |f| && y.info == f[j].info
      {
        if y in head {
          assert y.info == f[0].info;
        } else {
          assert y in PruneList(f[1..], e1).0;
          var j :| 0 <= j < |f[1..]| && y.info == f[1..][j].info;
          assert y.info == f[j + 1].info;
        }
      }
    }
  }

  /** A node in front of a well-formed list of nodes whose infos come from
      the later siblings of that node's original, in a well-formed list. */
  lemma ConsWF(h: Node, rest: seq<Node>, f: seq<Node>)
    requires WF(f) && |f| > 0 && h.info == f[0].info && WF(h.children) && WF(rest)
    requires forall y :: y in rest ==> exists j :: 0 <= j < |f[1..]| && y.info == f[1..][j].info
    ensures WF([h] + rest)
  {
    var r := [h] + rest;
    forall i, j | 0 <= i < j < |r|
      ensures !StrLess(r[i].info.title, r[j].info.title) && !SameKey(r[i], r[j])
    {
      if i == 0 {
        assert r[j] in rest;
        HeadBefore(h, f, r[j]);
      } else {
        assert r[i] == rest[i - 1] && r[j] == rest[j - 1];
      }
    }
    forall i | 0 <= i < |r|
      ensures '.' !in r[i].info.id && WF(r[i].children)
    {
      if i > 0 {
        assert r[i] == rest[i - 1];
      }
    }
  }

  /** A node with the info of the first of a well-formed list sorts before,
      and differs in key from, any node with the info of a later one. */
  lemma HeadBefore(h: Node, f: seq<Node>, y: Node)
    requires WF(f) && |f| > 0 && h.info == f[0].info
    requires exists j :: 0 <= j < |f[1..]| && y.info == f[1..][j].info
    ensures !StrLess(h.info.title, y.info.title) && !SameKey(h, y)
  {
    var k :| 0 <= k < |f[1..]| && y.info == f[1..][k].info;
    assert y.info == f[k + 1].info;
  }

  /** `prune` keeps every child list well formed. */
  lemma {:induction false} PruneWF(f: seq<Node>, e: map<string, bool>)
    requires WF(f)
    ensures WF(PruneList(f, e).0)
    decreases f, 1
  {
    if |f| > 0 {
      var (head, e1) := PruneNode(f[0], e);
      var (rest, e2) := PruneList(f[1..], e1);
      assert PruneList(f, e).0 == head + rest;
      PruneNodeWF(f[0], e);
      PruneWF(f[1..], e1);
      if head == [] {
        assert head + rest == rest;
      } else {
        PruneInfosFrom(f[1..], e1);
        assert head[0] in head;
        ConsWF(head[0], rest, f);
        assert head + rest == [head[0]] + rest;
      }
    }
  }

  lemma {:induction false} PruneNodeWF(n: Node, e: map<string, bool>)
    requires WF(n.children)
    ensures forall y :: y in PruneNode(n, e).0 ==> y.info == n.info && WF(y.children)
    decreases n, 0
  {
    PruneWF(n.children, e);
  }
}
