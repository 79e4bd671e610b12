/** `filter` and `clearFilter` of `TreeNodeProvider` (tree.js). The regular
    expression built from the term's text is a parameter: a test on the text
    of a node's value. */
module Filtering {
  import opened Common
  import opened JsValue
  import opened Forest
  import opened TreeStore

  datatype FilterTerm = FilterTerm(key: Option<string>, text: string)

  /** `toLowerCase` on the ASCII letters. */
  function Lower(s: string): (r: string)
    ensures |r| == |s|
    decreases |s|
  {
    if |s| == 0 then []
    else [if 'A' <= s[0] <= 'Z' then (s[0] as int + 32) as char else s[0]] + Lower(s[1..])
  }

  /** The test a child passes to be lit up: its type equals the key ignoring
      case, and the matcher accepts its value's text. */
  predicate Matches(i: Info, key: string, test: string -> bool) {
    Lower(i.typ) == Lower(key) && test(Display(i.value))
  }

  /** The matching nodes among `f[i..]` (whose paths start with `base`), in
      the order the recursive `children.forEach` reaches them: a child's
      subtree first, then the child. */
  function MatchList(f: seq<Node>, base: Path, i: nat, key: string, test: string -> bool): seq<Path>
    decreases f, |f| - i
  {
    if i >= |f| then []
    else
      MatchList(f[i].children, base + [i], 0, key, test) +
      (if Matches(f[i].info, key, test) then [base + [i]] else []) +
      MatchList(f, base, i + 1, key, test)
  }

  /** A path through child `i` of `f`, seen from that child's own list. */
  lemma Descend(f: seq<Node>, base: Path, i: nat, p: Path)
    requires i < |f| && IsPrefix(base, p) && |p| > |base| + 1 && p[|base|] == i
    ensures IsPrefix(base + [i], p)
    ensures p[|base + [i]|..] == p[|base|..][1..]
    ensures ValidPath(f, p[|base|..]) <==> ValidPath(f[i].children, p[|base + [i]|..])
    ensures ValidPath(f, p[|base|..]) ==>
              InfoAt(f, p[|base|..]) == InfoAt(f[i].children, p[|base + [i]|..])
  {
    var q := p[|base|..];
    assert p[..|base + [i]|] == p[..|base|] + [p[|base|]];
    assert q[1..] == p[|base + [i]|..];
  }

  /** A path that extends `base + [i]` extends `base` through `i`. */
  lemma Extends(base: Path, i: nat, p: Path)
    requires IsPrefix(base + [i], p)
    ensures IsPrefix(base, p) && p[|base|] == i
    ensures p[|base|..] == [i] + p[|base + [i]|..]
  {
    assert p[..|base|] == p[..|base + [i]|][..|base|];
    assert p[|base|] == p[..|base + [i]|][|base|];
  }

  lemma {:induction false} MatchListSpec(f: seq<Node>, base: Path, i: nat, key: string,
                                         test: string -> bool, p: Path)
    ensures p in MatchList(f, base, i, key, test) <==>
      IsPrefix(base, p) && ValidPath(f, p[|base|..]) && p[|base|] >= i &&
      Matches(InfoAt(f, p[|base|..]), key, test)
    decreases f, |f| - i
  {
    if i < |f| {
      var c := f[i];
      MatchListSpec(c.children, base + [i], 0, key, test, p);
      MatchListSpec(f, base, i + 1, key, test, p);
      if IsPrefix(base, p) && |p| > |base| {
        var q := p[|base|..];
        if q[0] == i && |q| > 1 {
          Descend(f, base, i, p);
        }
        if q == [i] {
          assert p == p[..|base|] + q;
        }
      }
      if IsPrefix(base + [i], p) {
        Extends(base, i, p);
      }
    }
  }

  function Show(): Info -> Info {
    (i: Info) => i.(visible := true)
  }

  /** Lighting up a match: the child, its subtree and its parent chain. */
  function LightUp(f: seq<Node>, p: Path): seq<Node> {
    MapAlong(f, p, Show(), Show(), Show())
  }

  function LightAll(f: seq<Node>, ps: seq<Path>): seq<Node>
    decreases |ps|
  {
    if |ps| == 0 then f else LightAll(LightUp(f, ps[0]), ps[1..])
  }

  /** One path is on the other's root path: ancestor, self or descendant. */
  predicate Related(p: Path, q: Path) {
    IsPrefix(p, q) || IsPrefix(q, p)
  }

  lemma LightUpAt(f: seq<Node>, p: Path, q: Path)
    requires ValidPath(f, p)
    ensures ValidPath(LightUp(f, p), q) <==> ValidPath(f, q)
    ensures ValidPath(f, q) ==>
      InfoAt(LightUp(f, p), q) == InfoAt(f, q).(visible := InfoAt(f, q).visible || Related(p, q))
  {
    MapAlongAt(f, p, Show(), Show(), Show(), q);
  }

  /** Lighting up a list of paths sets exactly the nodes related to one of them. */
  lemma {:induction false} LightAllAt(f: seq<Node>, ps: seq<Path>, q: Path)
    requires forall p :: p in ps ==> ValidPath(f, p)
    ensures ValidPath(LightAll(f, ps), q) <==> ValidPath(f, q)
    ensures ValidPath(f, q) ==>
      InfoAt(LightAll(f, ps), q) ==
        InfoAt(f, q).(visible := InfoAt(f, q).visible || exists p :: p in ps && Related(p, q))
    decreases |ps|
  {
    if |ps| > 0 {
      var g := LightUp(f, ps[0]);
      forall p | p in ps[1..]
        ensures ValidPath(g, p)
      {
        LightUpAt(f, ps[0], p);
      }
      LightAllAt(g, ps[1..], q);
      LightUpAt(f, ps[0], q);
      assert forall p :: p in ps <==> p == ps[0] || p in ps[1..];
    }
  }

  function Hide(): Info -> Info {
    (i: Info) => i.(visible := false)
  }

  /** `filter(term)` from the top. Lighting up changes only `visible`, so the
      matches can be read from the tree before any node is lit. */
  function Filter(st: Store, term: FilterTerm, test: string -> bool): (r: Store)
    ensures term.key.None? ==> r == st
    ensures r.(nodes := st.nodes) == st
  {
    if term.key.None? then st
    else st.(nodes := LightAll(MapAll(st.nodes, Hide()), MatchList(st.nodes, [], 0, term.key.value, test)))
  }

  /** After `filter` with a key, a node is visible exactly when it matches or
      is an ancestor or descendant of a match; nothing else changes. */
  lemma FilterSpec(st: Store, term: FilterTerm, test: string -> bool, q: Path)
    requires term.key.Some?
    ensures ValidPath(Filter(st, term, test).nodes, q) <==> ValidPath(st.nodes, q)
    ensures ValidPath(st.nodes, q) ==>
      InfoAt(Filter(st, term, test).nodes, q) ==
        InfoAt(st.nodes, q).(visible :=
          exists p :: ValidPath(st.nodes, p) && Matches(InfoAt(st.nodes, p), term.key.value, test) && Related(p, q))
  {
    var key := term.key.value;
    var f := st.nodes;
    var hidden := MapAll(f, Hide());
    var ps := MatchList(f, [], 0, key, test);
    forall p | p in ps
      ensures ValidPath(hidden, p)
    {
      MatchListSpec(f, [], 0, key, test, p);
      assert p[0..] == p;
      MapAllAt(f, Hide(), p);
    }
    LightAllAt(hidden, ps, q);
    MapAllAt(f, Hide(), q);
    forall p
      ensures p in ps <==> ValidPath(f, p) && Matches(InfoAt(f, p), key, test)
    {
      MatchListSpec(f, [], 0, key, test, p);
      assert p[0..] == p;
    }
  }

  /** `clearFilter`: every node visible again. */
  function ClearFilter(st: Store): (r: Store)
    ensures r.(nodes := st.nodes) == st
  {
    st.(nodes := MapAll(st.nodes, Show()))
  }

  lemma ClearFilterSpec(st: Store, q: Path)
    ensures ValidPath(ClearFilter(st).nodes, q) <==> ValidPath(st.nodes, q)
    ensures ValidPath(st.nodes, q) ==> InfoAt(ClearFilter(st).nodes, q) == InfoAt(st.nodes, q).(visible := true)
  {
    MapAllAt(st.nodes, Show(), q);
  }
}
