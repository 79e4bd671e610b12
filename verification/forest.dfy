/** The node store of tree.js as an immutable forest. A node's parent
    reference is replaced by its position: a path of child indexes from the
    root list, so ancestors are exactly the proper prefixes of a node's path. */
module Forest {
  import opened Common
  import opened JsValue

  /** The per-node fields tree.js reads and writes; `delete` is the mark of
      the mark-and-sweep pass. */
  datatype Info = Info(
    id: string,
    typ: string,
    value: Json,
    title: string,
    visible: bool,
    showChanged: bool,
    hasContextMenu: bool,
    changed: bool,
    delete: bool)

  datatype Node = Node(info: Info, children: seq<Node>)

  type Path = seq<nat>

  /** `q` leads from `n` to one of its descendants (or to `n` itself when empty). */
  predicate ValidIn(n: Node, q: Path)
    decreases q
  {
    |q| == 0 || (q[0] < |n.children| && ValidIn(n.children[q[0]], q[1..]))
  }

  function Sub(n: Node, q: Path): Node
    requires ValidIn(n, q)
    decreases q
  {
    if |q| == 0 then n else Sub(n.children[q[0]], q[1..])
  }

  /** `p` leads from the root list to a node. */
  predicate ValidPath(f: seq<Node>, p: Path) {
    |p| > 0 && p[0] < |f| && ValidIn(f[p[0]], p[1..])
  }

  function NodeAt(f: seq<Node>, p: Path): Node
    requires ValidPath(f, p)
  {
    Sub(f[p[0]], p[1..])
  }

  function InfoAt(f: seq<Node>, p: Path): Info
    requires ValidPath(f, p)
  {
    NodeAt(f, p).info
  }

  predicate IsPrefix(a: Path, b: Path) {
    |a| <= |b| && b[..|a|] == a
  }

  /** `a` is the path of a proper ancestor of the node at `b`. */
  predicate IsAncestor(a: Path, b: Path) {
    0 < |a| < |b| && b[..|a|] == a
  }

  /** Both forests have the same nodes in the same places (only fields may differ). */
  ghost predicate SameShape(f: seq<Node>, g: seq<Node>) {
    forall p :: ValidPath(f, p) <==> ValidPath(g, p)
  }

  // ---------------------------------------------------------------------------
  // Path algebra

  lemma {:induction false} ValidInAppend(n: Node, q: Path, r: Path)
    ensures ValidIn(n, q + r) <==> ValidIn(n, q) && ValidIn(Sub(n, q), r)
    ensures ValidIn(n, q + r) ==> Sub(n, q + r) == Sub(Sub(n, q), r)
    decreases q
  {
    if |q| > 0 {
      assert (q + r)[0] == q[0] && (q + r)[1..] == q[1..] + r;
      if q[0] < |n.children| {
        ValidInAppend(n.children[q[0]], q[1..], r);
      }
    } else {
      assert q + r == r;
    }
  }

  /** The node at `p + q` is the node reached by `q` from the node at `p`. */
  lemma PathAppend(f: seq<Node>, p: Path, q: Path)
    requires |p| > 0
    ensures ValidPath(f, p + q) <==> ValidPath(f, p) && ValidIn(NodeAt(f, p), q)
    ensures ValidPath(f, p + q) ==> NodeAt(f, p + q) == Sub(NodeAt(f, p), q)
  {
    assert (p + q)[0] == p[0] && (p + q)[1..] == p[1..] + q;
    if p[0] < |f| {
      ValidInAppend(f[p[0]], p[1..], q);
    }
  }

  /** Every non-empty prefix of a node's path leads to one of its ancestors. */
  lemma PrefixValid(f: seq<Node>, p: Path, k: nat)
    requires ValidPath(f, p) && 0 < k <= |p|
    ensures ValidPath(f, p[..k])
  {
    assert p == p[..k] + p[k..];
    PathAppend(f, p[..k], p[k..]);
  }

  // ---------------------------------------------------------------------------
  // Field updates that keep the shape

  /** `forEachNode` with a callback that rewrites each node's fields. */
  function MapAll(f: seq<Node>, g: Info -> Info): (r: seq<Node>)
    ensures |r| == |f|
    decreases f, 1
  {
    if |f| == 0 then [] else [MapNode(f[0], g)] + MapAll(f[1..], g)
  }

  function MapNode(n: Node, g: Info -> Info): (r: Node)
    ensures |r.children| == |n.children|
    decreases n, 0
  {
    Node(g(n.info), MapAll(n.children, g))
  }

  /** Rewrites the node at `p` with `self`, its proper ancestors with `anc` and
      its proper descendants with `desc`; everything else is left alone. */
  function MapAlong(f: seq<Node>, p: Path, anc: Info -> Info, self: Info -> Info,
                    desc: Info -> Info): (r: seq<Node>)
    ensures |r| == |f|
    decreases |p|, 0
  {
    if |p| == 0 || p[0] >= |f| then f
    else f[p[0] := MapAlongNode(f[p[0]], p[1..], anc, self, desc)]
  }

  function MapAlongNode(n: Node, q: Path, anc: Info -> Info, self: Info -> Info,
                        desc: Info -> Info): Node
    decreases |q|, 1
  {
    if |q| == 0 then Node(self(n.info), MapAll(n.children, desc))
    else Node(anc(n.info), MapAlong(n.children, q, anc, self, desc))
  }

  lemma {:induction false} MapNodeAt(n: Node, g: Info -> Info, q: Path)
    ensures ValidIn(MapNode(n, g), q) <==> ValidIn(n, q)
    ensures ValidIn(n, q) ==> Sub(MapNode(n, g), q).info == g(Sub(n, q).info)
    decreases q
  {
    if |q| > 0 && q[0] < |n.children| {
      MapAllChild(n.children, g, q[0]);
      MapNodeAt(n.children[q[0]], g, q[1..]);
    }
  }

  lemma {:induction false} MapAllChild(f: seq<Node>, g: Info -> Info, i: nat)
    requires i < |f|
    ensures MapAll(f, g)[i] == MapNode(f[i], g)
    decreases i
  {
    if i > 0 {
      MapAllChild(f[1..], g, i - 1);
    }
  }

  /** `MapAll` rewrites every node's fields with `g` and keeps the shape. */
  lemma MapAllAt(f: seq<Node>, g: Info -> Info, p: Path)
    ensures ValidPath(MapAll(f, g), p) <==> ValidPath(f, p)
    ensures ValidPath(f, p) ==> InfoAt(MapAll(f, g), p) == g(InfoAt(f, p))
  {
    if |p| > 0 && p[0] < |f| {
      MapAllChild(f, g, p[0]);
      MapNodeAt(f[p[0]], g, p[1..]);
    }
  }

  /** The callback that leaves a node's fields as they are. */
  function Keep(): Info -> Info {
    (i: Info) => i
  }

  /** What `MapAlong` does to the node at `q`, by its relation to `p`. */
  function Along(p: Path, q: Path, anc: Info -> Info, self: Info -> Info, desc: Info -> Info): Info -> Info {
    if IsAncestor(q, p) then anc
    else if q == p then self
    else if IsAncestor(p, q) then desc
    else Keep()
  }

  /** `Along` for paths relative to one node, where the empty path is the node itself. */
  function AlongIn(q: Path, s: Path, anc: Info -> Info, self: Info -> Info, desc: Info -> Info): Info -> Info {
    if IsPrefix(s, q) then (if |s| == |q| then self else anc)
    else if IsPrefix(q, s) then desc
    else Keep()
  }

  lemma {:induction false} MapAlongNodeAt(n: Node, q: Path, anc: Info -> Info, self: Info -> Info,
                                          desc: Info -> Info, s: Path)
    requires ValidIn(n, q)
    ensures ValidIn(MapAlongNode(n, q, anc, self, desc), s) <==> ValidIn(n, s)
    ensures ValidIn(n, s) ==>
      Sub(MapAlongNode(n, q, anc, self, desc), s).info == AlongIn(q, s, anc, self, desc)(Sub(n, s).info)
    decreases q
  {
    var m := MapAlongNode(n, q, anc, self, desc);
    if |s| > 0 && s[0] < |n.children| {
      if |q| == 0 {
        MapAllChild(n.children, desc, s[0]);
        MapNodeAt(n.children[s[0]], desc, s[1..]);
      } else if s[0] == q[0] {
        assert m.children == MapAlong(n.children, q, anc, self, desc);
        assert m.children[s[0]] == MapAlongNode(n.children[q[0]], q[1..], anc, self, desc);
        MapAlongNodeAt(n.children[q[0]], q[1..], anc, self, desc, s[1..]);
        assert IsPrefix(s, q) <==> IsPrefix(s[1..], q[1..]);
        assert IsPrefix(q, s) <==> IsPrefix(q[1..], s[1..]);
      } else {
        assert m.children[s[0]] == n.children[s[0]];
        assert !IsPrefix(s, q) && !IsPrefix(q, s);
      }
    }
  }

  /** `MapAlong` keeps the shape and rewrites each node by its relation to `p`. */
  lemma MapAlongAt(f: seq<Node>, p: Path, anc: Info -> Info, self: Info -> Info,
                   desc: Info -> Info, q: Path)
    requires ValidPath(f, p)
    ensures ValidPath(MapAlong(f, p, anc, self, desc), q) <==> ValidPath(f, q)
    ensures ValidPath(f, q) ==>
      InfoAt(MapAlong(f, p, anc, self, desc), q) == Along(p, q, anc, self, desc)(InfoAt(f, q))
  {
    var r := MapAlong(f, p, anc, self, desc);
    if |q| > 0 && q[0] < |f| {
      if q[0] == p[0] {
        MapAlongNodeAt(f[p[0]], p[1..], anc, self, desc, q[1..]);
        assert IsPrefix(q, p) <==> IsPrefix(q[1..], p[1..]);
        assert IsPrefix(p, q) <==> IsPrefix(p[1..], q[1..]);
        assert q == p <==> q[1..] == p[1..];
      } else {
        assert r[q[0]] == f[q[0]];
        assert !IsPrefix(q, p) && !IsPrefix(p, q);
      }
    }
  }

  // ---------------------------------------------------------------------------
  // Child lists addressed by the node that owns them (`None` for the root list)

  /** The children of the node at `at`, or the root list. */
  function ListAt(f: seq<Node>, at: Option<Path>): seq<Node> {
    match at
    case None => f
    case Some(p) => if ValidPath(f, p) then NodeAt(f, p).children else []
  }

  function ChildPath(at: Option<Path>, i: nat): Path {
    match at
    case None => [i]
    case Some(p) => p + [i]
  }

  function IdAt(f: seq<Node>, p: Path): string {
    if ValidPath(f, p) then InfoAt(f, p).id else ""
  }

  /** Replaces the children of the node at `p`. */
  function SetChildren(f: seq<Node>, p: Path, kids: seq<Node>): (r: seq<Node>)
    ensures |r| == |f|
    decreases |p|, 0
  {
    if |p| == 0 || p[0] >= |f| then f
    else f[p[0] := SetChildrenIn(f[p[0]], p[1..], kids)]
  }

  function SetChildrenIn(n: Node, q: Path, kids: seq<Node>): Node
    decreases |q|, 1
  {
    if |q| == 0 then Node(n.info, kids) else Node(n.info, SetChildren(n.children, q, kids))
  }
}
